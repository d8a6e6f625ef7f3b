/** The paragraph and list machine that turns the lines of a JSDoc block into prose blocks. */
module JsDocProse {
  import opened Texts

  // ---------------------------------------------------------------- words

  function Flushed(word: string): seq<string> {
    if word == "" then [] else [word]
  }

  /** The words of a text whose first word has begun as `word`. */
  function WordsFrom(word: string, s: string): seq<string>
    decreases |s|
  {
    if s == "" then Flushed(word)
    else if IsSpace(s[0]) then Flushed(word) + WordsFrom("", s[1..])
    else WordsFrom(word + [s[0]], s[1..])
  }

  function Words(s: string): seq<string> {
    WordsFrom("", s)
  }

  function AllWords(texts: seq<string>): seq<string> {
    if texts == [] then [] else AllWords(texts[..|texts| - 1]) + Words(texts[|texts| - 1])
  }

  lemma {:induction false} BlankHasNoWords(s: string)
    requires IsBlank(s)
    ensures Words(s) == []
  {
    if s == "" {
    } else {
      assert s[0] in s;
      BlankHasNoWords(s[1..]);
    }
  }

  /** Any white space between two texts separates their words. */
  lemma {:induction false} WordsOfJoin(word: string, a: string, gap: char, b: string)
    requires IsSpace(gap)
    ensures WordsFrom(word, a + [gap] + b) == WordsFrom(word, a) + Words(b)
    decreases |a|
  {
    var s := a + [gap] + b;
    if a == "" {
      assert s[0] == gap && s[1..] == b;
    } else {
      assert s[0] == a[0] && s[1..] == a[1..] + [gap] + b;
      WordsOfJoin(if IsSpace(a[0]) then "" else word + [a[0]], a[1..], gap, b);
    }
  }

  // ---------------------------------------------------------------- joining

  function JoinWith(parts: seq<string>, gap: string): string {
    if parts == [] then ""
    else if |parts| == 1 then parts[0]
    else JoinWith(parts[..|parts| - 1], gap) + gap + parts[|parts| - 1]
  }

  /** Every run of white space becomes one space. */
  function Collapse(s: string): string
    decreases |s|
  {
    if s == "" then ""
    else if IsSpace(s[0]) then " " + Collapse(DropSpaces(s[1..]))
    else [s[0]] + Collapse(s[1..])
  }

  /** Lines joined into one, white space collapsed. */
  function Join(parts: seq<string>): string {
    Trim(Collapse(JoinWith(parts, " ")))
  }

  lemma {:induction false} DropSpacesKeepsWords(s: string)
    ensures Words(DropSpaces(s)) == Words(s)
  {
    if s == "" || !IsSpace(s[0]) {
    } else {
      DropSpacesKeepsWords(s[1..]);
    }
  }

  lemma {:induction false} CollapseKeepsWords(word: string, s: string)
    ensures WordsFrom(word, Collapse(s)) == WordsFrom(word, s)
    decreases |s|
  {
    if s == "" {
    } else {
      if IsSpace(s[0]) {
        var rest := DropSpaces(s[1..]);
        CollapseKeepsWords("", rest);
        DropSpacesKeepsWords(s[1..]);
        assert Collapse(s)[0] == ' ' && Collapse(s)[1..] == Collapse(rest);
      } else {
        CollapseKeepsWords(word + [s[0]], s[1..]);
        assert Collapse(s)[0] == s[0] && Collapse(s)[1..] == Collapse(s[1..]);
      }
    }
  }

  lemma {:induction false} TrimEndKeepsWords(s: string)
    ensures Words(TrimEnd(s)) == Words(s)
  {
    if s == "" || !IsSpace(s[|s| - 1]) {
    } else {
      var front := s[..|s| - 1];
      TrimEndKeepsWords(front);
      WordsOfJoin("", front, s[|s| - 1], "");
      assert front + [s[|s| - 1]] + "" == s;
      assert Words(front) + [] == Words(front);
    }
  }

  lemma {:induction false} LeadingBlank(blank: string, b: string)
    requires IsBlank(blank)
    ensures Words(blank + b) == Words(b)
  {
    if blank == "" {
      assert blank + b == b;
    } else {
      assert blank[0] in blank && (blank + b)[1..] == blank[1..] + b;
      LeadingBlank(blank[1..], b);
    }
  }

  lemma {:induction false} GapSeparates(a: string, gap: string, b: string)
    requires gap != "" && IsBlank(gap)
    ensures Words(a + gap + b) == Words(a) + Words(b)
  {
    assert gap[0] in gap;
    WordsOfJoin("", a, gap[0], gap[1..] + b);
    assert a + [gap[0]] + (gap[1..] + b) == a + gap + b;
    LeadingBlank(gap[1..], b);
  }

  lemma {:induction false} JoinWithKeepsWords(parts: seq<string>, gap: string)
    requires gap != "" && IsBlank(gap)
    ensures Words(JoinWith(parts, gap)) == AllWords(parts)
  {
    if |parts| == 1 {
      assert parts[..0] == [] && [] + Words(parts[0]) == Words(parts[0]);
    } else if parts != [] {
      var front, last := parts[..|parts| - 1], parts[|parts| - 1];
      JoinWithKeepsWords(front, gap);
      GapSeparates(JoinWith(front, gap), gap, last);
    }
  }

  lemma Regroup(a: string, b: string, c: string, d: string)
    ensures a + b + c + d == a + (b + c + d)
  {
  }

  /** Joining two lists: the gap stands once between what they are joined to. */
  lemma {:induction false} JoinWithConcat(a: seq<string>, b: seq<string>, gap: string)
    requires a != [] && b != []
    ensures JoinWith(a + b, gap) == JoinWith(a, gap) + gap + JoinWith(b, gap)
  {
    if |b| == 1 {
      assert (a + b)[..|a|] == a && (a + b)[|a|] == b[0];
    } else {
      var front, last := b[..|b| - 1], b[|b| - 1];
      JoinWithConcat(a, front, gap);
      assert (a + b)[..|a + b| - 1] == a + front && (a + b)[|a + b| - 1] == last;
      Regroup(JoinWith(a, gap) + gap, JoinWith(front, gap), gap, last);
    }
  }

  /** A word: something, and no white space in it. */
  predicate IsWord(w: string) {
    w != "" && forall c :: c in w ==> !IsSpace(c)
  }

  lemma {:induction false} WordGoesOn(word: string, w: string)
    requires forall c :: c in w ==> !IsSpace(c)
    ensures WordsFrom(word, w) == Flushed(word + w)
    decreases |w|
  {
    if w == "" {
      assert word + w == word;
    } else {
      assert w[0] in w && word + [w[0]] + w[1..] == word + w;
      WordGoesOn(word + [w[0]], w[1..]);
    }
  }

  lemma {:induction false} WordsOfWords(words: seq<string>)
    requires forall w :: w in words ==> IsWord(w)
    ensures AllWords(words) == words
  {
    if words == [] {
    } else {
      var front, last := words[..|words| - 1], words[|words| - 1];
      assert words == front + [last] && last in words;
      WordsOfWords(front);
      WordGoesOn("", last);
      assert "" + last == last;
    }
  }

  /** A text of words with one space between neighbours has these words. */
  lemma {:induction false} SpacedReadsBack(words: seq<string>)
    requires forall w :: w in words ==> IsWord(w)
    ensures Words(JoinWith(words, " ")) == words
  {
    JoinWithKeepsWords(words, " ");
    WordsOfWords(words);
  }

  lemma {:induction false} WordsAreWords(word: string, s: string)
    requires forall c :: c in word ==> !IsSpace(c)
    ensures forall w :: w in WordsFrom(word, s) ==> IsWord(w)
    ensures word != "" ==> WordsFrom(word, s) != []
    decreases |s|
  {
    if s == "" {
    } else {
      WordsAreWords(if IsSpace(s[0]) then "" else word + [s[0]], s[1..]);
    }
  }

  // ---------------------------------------------------------------- a paragraph on one line

  /** The words of some lines, with one space between neighbours and no other white space. */
  function OneLine(lines: seq<string>): string {
    JoinWith(AllWords(lines), " ")
  }

  lemma {:induction false} TrimEndBehind(a: string, b: string)
    requires TrimEnd(b) != ""
    ensures TrimEnd(a + b) == a + TrimEnd(b)
    decreases |b|
  {
    assert (a + b)[|a + b| - 1] == b[|b| - 1];
    if !IsSpace(b[|b| - 1]) {
    } else {
      assert (a + b)[..|a + b| - 1] == a + b[..|b| - 1];
      TrimEndBehind(a, b[..|b| - 1]);
    }
  }

  lemma InkStays(word: string)
    requires IsWord(word)
    ensures TrimEnd(word) == word && TrimEnd(word + " ") == word
  {
    assert word[|word| - 1] in word;
    assert (word + " ")[..|word|] == word;
  }

  lemma DroppedIsInk(s: string)
    ensures DropSpaces(s) == "" || !IsSpace(DropSpaces(s)[0])
  {
    DroppedStartsWithInk(s);
  }

  /** White space behind a word: one space, and whatever words follow. */
  lemma {:induction false} WordThenRest(word: string, t: string)
    requires IsWord(word) && t != "" && !IsSpace(t[0])
    requires TrimEnd(Collapse(t)) == JoinWith(Words(t), " ") && Words(t) != []
    ensures TrimEnd(word + (" " + Collapse(t))) == JoinWith([word] + Words(t), " ")
  {
    TrimEndKeepsInk(Collapse(t));
    TrimEndBehind(word + " ", Collapse(t));
    assert word + (" " + Collapse(t)) == word + " " + Collapse(t);
    JoinWithConcat([word], Words(t), " ");
  }

  lemma WordBegins(t: string)
    requires t != "" && !IsSpace(t[0])
    ensures IsWord([t[0]]) && Words(t) == WordsFrom([t[0]], t[1..]) && Words(t) != []
    ensures Collapse(t) == [t[0]] + Collapse(t[1..])
  {
    assert "" + [t[0]] == [t[0]];
    WordsAreWords([t[0]], t[1..]);
  }

  /** Collapsed and trimmed at its end, a text that starts within a word is its words, spaced. */
  lemma {:induction false} CollapsedIsSpaced(word: string, s: string)
    requires IsWord(word)
    ensures TrimEnd(word + Collapse(s)) == JoinWith(WordsFrom(word, s), " ")
    decreases |s|
  {
    if s == "" {
      InkStays(word);
      assert word + "" == word;
    } else if !IsSpace(s[0]) {
      CollapsedIsSpaced(word + [s[0]], s[1..]);
      assert word + ([s[0]] + Collapse(s[1..])) == word + [s[0]] + Collapse(s[1..]);
    } else {
      var t := DropSpaces(s[1..]);
      DropSpacesKeepsWords(s[1..]);
      DroppedIsInk(s[1..]);
      if t == "" {
        InkStays(word);
        assert [word] + [] == [word] && " " + Collapse(t) == " ";
      } else {
        WordBegins(t);
        CollapsedIsSpaced([t[0]], t[1..]);
        WordThenRest(word, t);
      }
    }
  }

  lemma TrimmedIsSpaced(t: string)
    requires t == "" || !IsSpace(t[0])
    ensures Trim(Collapse(t)) == JoinWith(Words(t), " ")
  {
    if t != "" {
      WordBegins(t);
      CollapsedIsSpaced([t[0]], t[1..]);
    }
  }

  lemma LeadingSpaceIsDropped(s: string)
    ensures Trim(" " + s) == Trim(s)
  {
    assert (" " + s)[1..] == s;
  }

  lemma SpacedOut(s: string)
    ensures Trim(Collapse(s)) == JoinWith(Words(s), " ")
  {
    if s == "" || !IsSpace(s[0]) {
      TrimmedIsSpaced(s);
    } else {
      var t := DropSpaces(s[1..]);
      DropSpacesKeepsWords(s[1..]);
      DroppedIsInk(s[1..]);
      TrimmedIsSpaced(t);
      LeadingSpaceIsDropped(Collapse(t));
      assert Flushed("") + Words(s[1..]) == Words(s[1..]);
    }
  }

  /** Lines are joined to their words, one space between neighbours. */
  lemma JoinIsOneLine(parts: seq<string>)
    ensures Join(parts) == OneLine(parts)
  {
    JoinWithKeepsWords(parts, " ");
    SpacedOut(JoinWith(parts, " "));
  }

  lemma JoinKeepsWords(parts: seq<string>)
    ensures Words(Join(parts)) == AllWords(parts)
  {
    var joined := JoinWith(parts, " ");
    JoinWithKeepsWords(parts, " ");
    CollapseKeepsWords("", joined);
    DropSpacesKeepsWords(Collapse(joined));
    TrimEndKeepsWords(DropSpaces(Collapse(joined)));
  }

  // ---------------------------------------------------------------- the machine

  /** A line that opens a block tag. */
  predicate IsTag(line: string) {
    var text := DropSpaces(line);
    text != "" && text[0] == '@'
  }

  /** A line that opens a list item: a hyphen and white space. */
  predicate IsBullet(line: string) {
    |line| >= 2 && line[0] == '-' && IsSpace(line[1])
  }

  lemma TagBehindSpace(line: string)
    requires line != "" && IsSpace(line[0])
    ensures (exists k :: 0 <= k < |line| && line[k] == '@' && IsBlank(line[..k])) <==>
      exists k :: 0 <= k < |line| - 1 && line[1..][k] == '@' && IsBlank(line[1..][..k])
  {
    forall k | 0 < k <= |line| ensures IsBlank(line[..k]) <==> IsBlank(line[1..][..k - 1]) {
      assert line[..k] == [line[0]] + line[1..][..k - 1];
    }
    if k :| 0 <= k < |line| && line[k] == '@' && IsBlank(line[..k]) {
      assert line[1..][k - 1] == '@';
    }
    if k :| 0 <= k < |line| - 1 && line[1..][k] == '@' && IsBlank(line[1..][..k]) {
      assert line[k + 1] == '@' && IsBlank(line[..k + 1]);
    }
  }

  /** The first character that is not white space is an `@`. */
  lemma {:induction false} TagIsAt(line: string)
    ensures IsTag(line) <==>
      exists k :: 0 <= k < |line| && line[k] == '@' && IsBlank(line[..k])
  {
    if line == "" {
    } else if !IsSpace(line[0]) {
      assert IsBlank(line[..0]);
      forall k | 0 < k < |line| ensures !IsBlank(line[..k]) {
        assert line[..k][0] == line[0] && line[0] in line[..k];
      }
    } else {
      TagIsAt(line[1..]);
      TagBehindSpace(line);
    }
  }

  /** A hyphen, some white space, and anything. */
  lemma BulletIsHyphenAndSpace(line: string)
    ensures IsBullet(line) <==>
      exists gap: string, text: string :: gap != "" && IsBlank(gap) && line == "-" + gap + text
  {
    if IsBullet(line) {
      assert IsBlank([line[1]]) && line == "-" + [line[1]] + line[2..];
    }
    if gap: string, text: string :| gap != "" && IsBlank(gap) && line == "-" + gap + text {
      assert line[1] == gap[0] && gap[0] in gap;
    }
  }

  /** The lines before the first block tag. */
  function ProseLines(lines: seq<string>): seq<string> {
    if lines == [] || IsTag(lines[0]) then [] else [lines[0]] + ProseLines(lines[1..])
  }

  /** Blocks finished so far, and the paragraph, list and list item being collected. */
  datatype State = State(blocks: seq<string>, para: seq<string>, list: seq<string>, item: seq<string>)

  function ItemFlushed(s: State): State {
    if s.item == [] then s else s.(list := s.list + [Join(s.item)], item := [])
  }

  function ListFlushed(s: State): State {
    var t := ItemFlushed(s);
    if t.list == [] then t else t.(blocks := t.blocks + [JoinWith(t.list, "\n")], list := [])
  }

  function ParaFlushed(s: State): State {
    var t := ListFlushed(s);
    if t.para == [] then t else t.(blocks := t.blocks + [Join(t.para)], para := [])
  }

  /** The state after one line of prose. */
  function Taken(s: State, line: string): State {
    if IsBlank(line) then ParaFlushed(s)
    else if IsBullet(line) then
      var t := ItemFlushed(s);
      var u := if t.para == [] then t else t.(blocks := t.blocks + [Join(t.para)], para := []);
      u.(item := u.item + [line])
    else if s.item != [] then s.(item := s.item + [line])
    else s.(para := s.para + [line])
  }

  /** The closures of the parser, over its four collections. */
  class ProseMachine {
    var blocks: seq<string>
    var para: seq<string>
    var list: seq<string>
    var item: seq<string>

    ghost function Now(): State
      reads this
    {
      State(blocks, para, list, item)
    }

    constructor ()
      ensures Now() == State([], [], [], [])
    {
      blocks, para, list, item := [], [], [], [];
    }

    method FlushItem()
      modifies this
      ensures Now() == ItemFlushed(old(Now()))
    {
      if item != [] {
        list := list + [Join(item)];
      }
      item := [];
    }

    method FlushList()
      modifies this
      ensures Now() == ListFlushed(old(Now()))
    {
      FlushItem();
      if list != [] {
        blocks := blocks + [JoinWith(list, "\n")];
      }
      list := [];
    }

    method FlushPara()
      modifies this
      ensures Now() == ParaFlushed(old(Now()))
    {
      FlushList();
      if para != [] {
        blocks := blocks + [Join(para)];
      }
      para := [];
    }

    method TakeLine(line: string)
      modifies this
      ensures Now() == Taken(old(Now()), line)
    {
      if IsBlank(line) {
        FlushPara();
      } else if IsBullet(line) {
        // A pending paragraph flushes first, so that it renders above the list.
        FlushItem();
        if para != [] {
          blocks := blocks + [Join(para)];
          para := [];
        }
        item := item + [line];
      } else if item != [] {
        item := item + [line];
      } else {
        para := para + [line];
      }
    }
  }

  // ---------------------------------------------------------------- invariant

  /** A line that belongs to a paragraph or continues an item. */
  predicate IsPlain(line: string) {
    !IsBlank(line) && !IsBullet(line)
  }

  ghost predicate AllPlain(lines: seq<string>) {
    forall line :: line in lines ==> IsPlain(line)
  }

  /** A pending paragraph and a pending list never coexist; an item is a bullet and its continuation. */
  ghost predicate Valid(s: State) {
    && (s.para != [] ==> s.item == [] && s.list == [])
    && (s.list != [] ==> s.item != [])
    && AllPlain(s.para)
    && (s.item != [] ==> IsBullet(s.item[0]) && AllPlain(s.item[1..]))
  }

  lemma TakenKeepsValid(s: State, line: string)
    requires Valid(s)
    ensures Valid(Taken(s, line))
    ensures Valid(ParaFlushed(s))
  {
    if IsPlain(line) && s.item != [] {
      assert (s.item + [line])[1..] == s.item[1..] + [line];
    }
  }

  // ---------------------------------------------------------------- words are conserved

  /** Every word taken in so far, in order. */
  ghost function Held(s: State): seq<string> {
    AllWords(s.blocks) + AllWords(s.list) + AllWords(s.item) + AllWords(s.para)
  }

  lemma MoveThird(a: seq<string>, b: seq<string>, c: seq<string>, d: seq<string>)
    ensures a + (b + c) + [] + d == a + b + c + d
  {
  }

  lemma MoveSecond(a: seq<string>, b: seq<string>, d: seq<string>)
    ensures (a + b) + [] + [] + d == a + b + [] + d
  {
  }

  lemma MoveLast(a: seq<string>, d: seq<string>, e: seq<string>)
    ensures (a + d) + [] + [] + [] == a + [] + [] + d
    ensures (a + d) + [] + e + [] == a + [] + [] + d + e
    ensures a + [] + [] + (d + e) == a + [] + [] + d + e
  {
  }

  lemma MoveItem(a: seq<string>, b: seq<string>, c: seq<string>, e: seq<string>)
    ensures a + b + (c + e) + [] == a + b + c + [] + e
  {
  }

  lemma AllWordsSnoc(texts: seq<string>, text: string)
    ensures AllWords(texts + [text]) == AllWords(texts) + Words(text)
  {
    assert (texts + [text])[..|texts|] == texts;
  }

  lemma ItemFlushKeepsWords(s: State)
    ensures Held(ItemFlushed(s)) == Held(s)
  {
    if s.item != [] {
      JoinKeepsWords(s.item);
      AllWordsSnoc(s.list, Join(s.item));
      MoveThird(AllWords(s.blocks), AllWords(s.list), AllWords(s.item), AllWords(s.para));
    }
  }

  lemma ListFlushKeepsWords(s: State)
    ensures Held(ListFlushed(s)) == Held(s)
  {
    var t := ItemFlushed(s);
    ItemFlushKeepsWords(s);
    if t.list != [] {
      JoinWithKeepsWords(t.list, "\n");
      AllWordsSnoc(t.blocks, JoinWith(t.list, "\n"));
      MoveSecond(AllWords(t.blocks), AllWords(t.list), AllWords(t.para));
    }
  }

  lemma ParaFlushKeepsWords(s: State)
    ensures Held(ParaFlushed(s)) == Held(s)
  {
    var t := ListFlushed(s);
    ListFlushKeepsWords(s);
    if t.para != [] {
      JoinKeepsWords(t.para);
      AllWordsSnoc(t.blocks, Join(t.para));
      MoveLast(AllWords(t.blocks), AllWords(t.para), []);
    }
  }

  lemma BulletAddsWords(s: State, line: string)
    requires Valid(s) && IsBullet(line) && !IsBlank(line)
    ensures Held(Taken(s, line)) == Held(s) + Words(line)
  {
    var t := ItemFlushed(s);
    ItemFlushKeepsWords(s);
    AllWordsSnoc([], line);
    assert [] + Words(line) == Words(line) && t.item + [line] == [line];
    if t.para != [] {
      JoinKeepsWords(t.para);
      AllWordsSnoc(t.blocks, Join(t.para));
      MoveLast(AllWords(t.blocks), AllWords(t.para), Words(line));
    } else {
      MoveItem(AllWords(t.blocks), AllWords(t.list), [], Words(line));
    }
  }

  /** Taking a line in adds its words, and adds them last. */
  lemma TakenAddsWords(s: State, line: string)
    requires Valid(s)
    ensures Held(Taken(s, line)) == Held(s) + Words(line)
  {
    if IsBlank(line) {
      BlankHasNoWords(line);
      ParaFlushKeepsWords(s);
      assert Held(s) + [] == Held(s);
    } else if IsBullet(line) {
      BulletAddsWords(s, line);
    } else if s.item != [] {
      AllWordsSnoc(s.item, line);
      MoveItem(AllWords(s.blocks), AllWords(s.list), AllWords(s.item), Words(line));
    } else {
      AllWordsSnoc(s.para, line);
      MoveLast(AllWords(s.blocks), AllWords(s.para), Words(line));
    }
  }

  lemma {:induction false} ProseStep(lines: seq<string>, n: nat)
    requires n < |lines| && forall k :: 0 <= k < n ==> !IsTag(lines[k])
    ensures IsTag(lines[n]) ==> ProseLines(lines) == lines[..n]
    ensures !IsTag(lines[n]) && n + 1 == |lines| ==> ProseLines(lines) == lines
  {
    if n > 0 {
      ProseStep(lines[1..], n - 1);
      assert lines[..n] == [lines[0]] + lines[1..][..n - 1];
      assert lines == [lines[0]] + lines[1..];
    } else if |lines| == 1 {
      assert lines[1..] == [];
    }
  }

  /** The machine's state after the first `n` lines, none of them a tag. */
  ghost function AfterLines(lines: seq<string>, n: nat): State
    requires n <= |lines|
  {
    if n == 0 then State([], [], [], []) else Taken(AfterLines(lines, n - 1), lines[n - 1])
  }

  lemma {:induction false} AfterLinesIsValid(lines: seq<string>, n: nat)
    requires n <= |lines|
    ensures Valid(AfterLines(lines, n))
  {
    if n == 0 {
    } else {
      AfterLinesIsValid(lines, n - 1);
      TakenKeepsValid(AfterLines(lines, n - 1), lines[n - 1]);
    }
  }

  lemma AllWordsPrefix(lines: seq<string>, n: nat)
    requires 0 < n <= |lines|
    ensures AllWords(lines[..n]) == AllWords(lines[..n - 1]) + Words(lines[n - 1])
  {
    assert lines[..n][..n - 1] == lines[..n - 1];
  }

  lemma {:induction false} AfterLinesHolds(lines: seq<string>, n: nat)
    requires n <= |lines|
    ensures Held(AfterLines(lines, n)) == AllWords(lines[..n])
  {
    if n == 0 {
    } else {
      var before := AfterLines(lines, n - 1);
      AfterLinesHolds(lines, n - 1);
      AfterLinesIsValid(lines, n - 1);
      TakenAddsWords(before, lines[n - 1]);
      AllWordsPrefix(lines, n);
    }
  }

  // ---------------------------------------------------------------- the layout of the blocks

  /** How many lines the text starts with before a blank line or a bullet. */
  function LeadLength(lines: seq<string>): (n: nat)
    ensures n <= |lines|
  {
    if lines == [] || !IsPlain(lines[0]) then 0 else 1 + LeadLength(lines[1..])
  }

  /** How many lines the text starts with before a blank line. */
  function RunLength(lines: seq<string>): (n: nat)
    ensures n <= |lines|
  {
    if lines == [] || IsBlank(lines[0]) then 0 else 1 + RunLength(lines[1..])
  }

  /** The items of a list: each bullet with the lines up to the next one. */
  function Items(run: seq<string>): seq<string>
    decreases |run|
  {
    if run == [] then []
    else
      var n := 1 + LeadLength(run[1..]);
      [OneLine(run[..n])] + Items(run[n..])
  }

  /**
   * The blocks prose should have, read off the text: blank lines separate; a list runs from a
   * bullet to the next blank line, one line an item; anything else up to a bullet or a blank line
   * is a paragraph.
   */
  function Layout(lines: seq<string>): seq<string>
    decreases |lines|
  {
    if lines == [] then []
    else if IsBlank(lines[0]) then Layout(lines[1..])
    else if IsBullet(lines[0]) then
      var n := RunLength(lines);
      [JoinWith(Items(lines[..n]), "\n")] + Layout(lines[n..])
    else
      var n := LeadLength(lines);
      [OneLine(lines[..n])] + Layout(lines[n..])
  }

  /** The blocks still to come, given what is being collected and the lines not yet seen. */
  ghost function Pending(s: State, rest: seq<string>): seq<string> {
    if s.item != [] then
      var n := RunLength(rest);
      [JoinWith(s.list + Items(s.item + rest[..n]), "\n")] + Layout(rest[n..])
    else Layout(s.para + rest)
  }

  lemma {:induction false} LeadOfPlain(plain: seq<string>, rest: seq<string>)
    requires AllPlain(plain) && (rest == [] || !IsPlain(rest[0]))
    ensures LeadLength(plain + rest) == |plain|
  {
    if plain == [] {
      assert plain + rest == rest;
    } else {
      assert (plain + rest)[1..] == plain[1..] + rest;
      LeadOfPlain(plain[1..], rest);
    }
  }

  /** A paragraph followed by a blank line or a bullet is a block of its own. */
  lemma LayoutOfPara(para: seq<string>, rest: seq<string>)
    requires para != [] && AllPlain(para) && (rest == [] || !IsPlain(rest[0]))
    ensures Layout(para + rest) == [Join(para)] + Layout(rest)
  {
    LeadOfPlain(para, rest);
    JoinIsOneLine(para);
    var all := para + rest;
    assert all[0] == para[0] && all[0] in para;
    assert all[..|para|] == para && all[|para|..] == rest;
  }

  /** An item followed by another bullet, or by nothing, is an item of its own. */
  lemma ItemsOfItem(item: seq<string>, rest: seq<string>)
    requires item != [] && AllPlain(item[1..]) && (rest == [] || !IsPlain(rest[0]))
    ensures Items(item + rest) == [Join(item)] + Items(rest)
  {
    var all := item + rest;
    assert all[1..] == item[1..] + rest;
    LeadOfPlain(item[1..], rest);
    JoinIsOneLine(item);
    assert all[..|item|] == item && all[|item|..] == rest;
  }

  lemma PushFirst(blocks: seq<string>, block: string, rest: seq<string>)
    ensures blocks + ([block] + rest) == blocks + [block] + rest
  {
  }

  lemma PendingAtBlank(s: State, rest: seq<string>)
    requires Valid(s) && (rest == [] || IsBlank(rest[0]))
    ensures s.blocks + Pending(s, rest) == ParaFlushed(s).blocks + Layout(rest)
    ensures ParaFlushed(s).item == [] && ParaFlushed(s).para == [] && ParaFlushed(s).list == []
  {
    if s.item != [] {
      ItemsOfItem(s.item, []);
      assert s.item + rest[..0] == s.item + [] && rest[0..] == rest;
      var items := s.list + [Join(s.item)];
      assert s.list + ([Join(s.item)] + []) == items;
      PushFirst(s.blocks, JoinWith(items, "\n"), Layout(rest));
    } else if s.para != [] {
      LayoutOfPara(s.para, rest);
      PushFirst(s.blocks, Join(s.para), Layout(rest));
    } else {
      assert s.para + rest == rest;
    }
  }

  /** A list opened by the next line is the next block of the layout. */
  lemma PendingOfBullet(blocks: seq<string>, line: string, rest: seq<string>)
    requires IsBullet(line) && !IsBlank(line)
    ensures Pending(State(blocks, [], [], [line]), rest) == Layout([line] + rest)
  {
    var all, n := [line] + rest, RunLength(rest);
    assert all[1..] == rest;
    assert all[..n + 1] == [line] + rest[..n] && all[n + 1..] == rest[n..];
    assert [] + Items([line] + rest[..n]) == Items([line] + rest[..n]);
  }

  lemma PendingAtBulletInList(s: State, line: string, rest: seq<string>)
    requires Valid(s) && s.item != [] && IsBullet(line) && !IsBlank(line)
    ensures Pending(s, [line] + rest) == Pending(State(s.blocks, [], s.list + [Join(s.item)], [line]), rest)
  {
    var all, n := [line] + rest, RunLength(rest);
    assert all[1..] == rest;
    assert all[..n + 1] == [line] + rest[..n] && all[n + 1..] == rest[n..];
    ItemsOfItem(s.item, [line] + rest[..n]);
    PushFirst(s.list, Join(s.item), Items([line] + rest[..n]));
  }

  lemma PendingAtBullet(s: State, rest: seq<string>)
    requires Valid(s) && rest != [] && IsBullet(rest[0]) && !IsBlank(rest[0])
    ensures s.blocks + Pending(s, rest) == Taken(s, rest[0]).blocks + Pending(Taken(s, rest[0]), rest[1..])
  {
    var line, later := rest[0], rest[1..];
    assert rest == [line] + later && [] + [line] == [line];
    if s.item != [] {
      PendingAtBulletInList(s, line, later);
    } else if s.para != [] {
      LayoutOfPara(s.para, rest);
      PushFirst(s.blocks, Join(s.para), Layout(rest));
      PendingOfBullet(s.blocks + [Join(s.para)], line, later);
    } else {
      assert s.para + rest == rest;
      PendingOfBullet(s.blocks, line, later);
    }
  }

  lemma PendingAtPlain(s: State, rest: seq<string>)
    requires Valid(s) && rest != [] && IsPlain(rest[0])
    ensures s.blocks + Pending(s, rest) == Taken(s, rest[0]).blocks + Pending(Taken(s, rest[0]), rest[1..])
  {
    if s.item != [] {
      var n := RunLength(rest);
      assert s.item + rest[..n] == s.item + [rest[0]] + rest[1..][..n - 1];
      assert rest[n..] == rest[1..][n - 1..];
    } else {
      assert s.para + rest == s.para + [rest[0]] + rest[1..];
    }
  }

  /** Whatever line comes next, the blocks so far and the blocks to come make up the same layout. */
  lemma PendingStep(s: State, rest: seq<string>)
    requires Valid(s) && rest != []
    ensures s.blocks + Pending(s, rest) == Taken(s, rest[0]).blocks + Pending(Taken(s, rest[0]), rest[1..])
  {
    if IsBlank(rest[0]) {
      PendingAtBlank(s, rest);
      assert [] + rest[1..] == rest[1..];
    } else if IsBullet(rest[0]) {
      PendingAtBullet(s, rest);
    } else {
      PendingAtPlain(s, rest);
    }
  }

  lemma {:induction false} AfterLinesLaysOut(lines: seq<string>, n: nat)
    requires n <= |lines|
    ensures AfterLines(lines, n).blocks + Pending(AfterLines(lines, n), lines[n..]) == Layout(lines)
  {
    if n == 0 {
      assert lines[0..] == lines && [] + lines == lines;
    } else {
      AfterLinesLaysOut(lines, n - 1);
      AfterLinesIsValid(lines, n - 1);
      PendingStep(AfterLines(lines, n - 1), lines[n - 1..]);
      assert lines[n - 1..][0] == lines[n - 1] && lines[n - 1..][1..] == lines[n..];
    }
  }

  /** Flushed after the last line, the blocks are the layout of the lines. */
  lemma FlushedLinesAreLaidOut(lines: seq<string>)
    ensures ParaFlushed(AfterLines(lines, |lines|)).blocks == Layout(lines)
  {
    AfterLinesIsValid(lines, |lines|);
    AfterLinesLaysOut(lines, |lines|);
    assert lines[|lines|..] == [];
    PendingAtBlank(AfterLines(lines, |lines|), []);
  }

  lemma NothingElseHeld(s: State)
    requires s.list == [] && s.item == [] && s.para == []
    ensures Held(s) == AllWords(s.blocks)
  {
  }

  /** A layout holds exactly the words of the text, in order. */
  lemma LayoutKeepsWords(lines: seq<string>)
    ensures AllWords(Layout(lines)) == AllWords(lines)
  {
    var s := AfterLines(lines, |lines|);
    AfterLinesIsValid(lines, |lines|);
    AfterLinesHolds(lines, |lines|);
    FlushedLinesAreLaidOut(lines);
    ParaFlushKeepsWords(s);
    PendingAtBlank(s, []);
    assert lines[..|lines|] == lines;
    NothingElseHeld(ParaFlushed(s));
  }

  lemma {:induction false} AfterPrefix(lines: seq<string>, prefix: seq<string>, n: nat)
    requires prefix <= lines && n <= |prefix|
    ensures AfterLines(lines, n) == AfterLines(prefix, n)
  {
    if n == 0 {
    } else {
      AfterPrefix(lines, prefix, n - 1);
    }
  }

  /** The machine after `n` lines: still collecting prose, or flushed at the first tag. */
  ghost predicate Tracks(lines: seq<string>, n: nat, inTags: bool, s: State) {
    n <= |lines| &&
    if inTags then s == ParaFlushed(AfterLines(ProseLines(lines), |ProseLines(lines)|))
    else s == AfterLines(lines, n) && forall k :: 0 <= k < n ==> !IsTag(lines[k])
  }

  lemma FlushIsFinal(s: State)
    ensures ParaFlushed(ParaFlushed(s)) == ParaFlushed(s)
  {
  }

  lemma TagStep(lines: seq<string>, n: nat, inTags: bool, s: State)
    requires n < |lines| && Tracks(lines, n, inTags, s) && IsTag(lines[n])
    ensures Tracks(lines, n + 1, true, ParaFlushed(s))
  {
    if inTags {
      FlushIsFinal(AfterLines(ProseLines(lines), |ProseLines(lines)|));
    } else {
      ProseStep(lines, n);
      AfterPrefix(lines, lines[..n], n);
    }
  }

  /** The line loop: a tag ends the prose, and nothing after it is prose again. */
  method TakeLines(machine: ProseMachine, lines: seq<string>)
    requires machine.Now() == State([], [], [], [])
    modifies machine
    ensures ParaFlushed(machine.Now()) == ParaFlushed(AfterLines(ProseLines(lines), |ProseLines(lines)|))
  {
    var inTags := false;
    for n := 0 to |lines|
      invariant Tracks(lines, n, inTags, machine.Now())
    {
      if IsTag(lines[n]) {
        TagStep(lines, n, inTags, machine.Now());
        machine.FlushPara();
        inTags := true;
      } else if !inTags {
        machine.TakeLine(lines[n]);
      }
    }
    if inTags {
      FlushIsFinal(AfterLines(ProseLines(lines), |ProseLines(lines)|));
    } else if lines != [] {
      ProseStep(lines, |lines| - 1);
    }
  }

  /**
   * The blocks are the layout of the lines before the first block tag. Their words are the words
   * of those lines, in order: none is dropped, repeated or moved.
   */
  method ParseProse(lines: seq<string>) returns (doc: string, blocks: seq<string>)
    ensures blocks == Layout(ProseLines(lines))
    ensures doc == JoinWith(blocks, "\n\n")
    ensures Words(doc) == AllWords(ProseLines(lines))
  {
    var machine := new ProseMachine();
    TakeLines(machine, lines);
    machine.FlushPara();
    FlushedLinesAreLaidOut(ProseLines(lines));
    LayoutKeepsWords(ProseLines(lines));
    blocks := machine.blocks;
    doc := JoinWith(blocks, "\n\n");
    JoinWithKeepsWords(blocks, "\n\n");
  }
}
