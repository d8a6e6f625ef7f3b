/**
 * Printing a command for copying, and the shell's reading of it: token recognition and quote
 * removal, sections 2.2, 2.3 and 2.6.7 of the POSIX.1 Shell Command Language.
 */
module ShellWords {
  import opened Wrappers

  // ---------------------------------------------------------------- the printer

  /** A character that is printed unquoted. */
  predicate IsPlain(c: char) {
    'a' <= c <= 'z' || 'A' <= c <= 'Z' || '0' <= c <= '9' || c in "_./:@=+-"
  }

  const ESCAPED_QUOTE := "'\"'\"'"

  /** Every single quote leaves the single-quoted text, is double-quoted, and re-enters it. */
  function EscapeQuotes(value: string): string {
    if value == "" then ""
    else (if value[0] == '\'' then ESCAPED_QUOTE else [value[0]]) + EscapeQuotes(value[1..])
  }

  function QuoteShellArgument(value: string): string {
    if value != "" && forall c :: c in value ==> IsPlain(c) then value
    else "'" + EscapeQuotes(value) + "'"
  }

  function JoinBySpaces(words: seq<string>): string {
    if words == [] then ""
    else if |words| == 1 then words[0]
    else words[0] + " " + JoinBySpaces(words[1..])
  }

  function QuoteAll(words: seq<string>): seq<string> {
    if words == [] then [] else [QuoteShellArgument(words[0])] + QuoteAll(words[1..])
  }

  function FormatCopyableCommand(command: string, args: seq<string>): string {
    JoinBySpaces(QuoteAll([command] + args))
  }

  // ---------------------------------------------------------------- what is printed

  /** A word of letters, digits and `_./:@=+-` is printed as it is; anything else between single quotes. */
  lemma PrintedPlainOrQuoted(value: string)
    ensures value != "" && (forall c :: c in value ==> IsPlain(c)) ==> QuoteShellArgument(value) == value
    ensures (value == "" || exists c :: c in value && !IsPlain(c)) ==>
      |QuoteShellArgument(value)| >= 2 && QuoteShellArgument(value)[0] == '\''
    ensures forall c :: IsPlain(c) <==>
      'a' <= c <= 'z' || 'A' <= c <= 'Z' || '0' <= c <= '9' || c in {'_', '.', '/', ':', '@', '=', '+', '-'}
  {
  }

  /** Text without single quotes is not changed by escaping. */
  lemma {:induction false} NothingToEscape(value: string)
    requires '\'' !in value
    ensures EscapeQuotes(value) == value
  {
    if value == "" {
    } else {
      NothingToEscape(value[1..]);
      assert [value[0]] + value[1..] == value;
    }
  }

  /** Each single quote becomes a quote, a double-quoted quote, and a quote; the text around it is kept. */
  lemma {:induction false} EscapesEachQuote(before: string, after: string)
    requires '\'' !in before
    ensures EscapeQuotes(before + "'" + after) == before + "'\"'\"'" + EscapeQuotes(after)
  {
    var value := before + "'" + after;
    if before == "" {
      assert value[1..] == after;
    } else {
      EscapesEachQuote(before[1..], after);
      assert value[1..] == before[1..] + "'" + after;
      assert [before[0]] + (before[1..] + "'\"'\"'" + EscapeQuotes(after)) == before + "'\"'\"'" + EscapeQuotes(after);
    }
  }

  lemma Regroup(a: string, b: string, c: string, d: string)
    ensures a + b + (c + d) == a + b + c + d
  {
  }

  lemma {:induction false} JoinBySpacesGrows(words: seq<string>, word: string)
    requires words != []
    ensures JoinBySpaces(words + [word]) == JoinBySpaces(words) + " " + word
  {
    if |words| == 1 {
      assert (words + [word])[1..] == [word];
    } else {
      JoinBySpacesGrows(words[1..], word);
      assert (words + [word])[1..] == words[1..] + [word];
      Regroup(words[0], " ", JoinBySpaces(words[1..]), " " + word);
    }
  }

  lemma {:induction false} QuoteAllGrows(words: seq<string>, word: string)
    ensures QuoteAll(words + [word]) == QuoteAll(words) + [QuoteShellArgument(word)]
    ensures |QuoteAll(words)| == |words|
  {
    if words == [] {
      assert QuoteAll([word]) == [QuoteShellArgument(word)];
    } else {
      QuoteAllGrows(words[1..], word);
      assert (words + [word])[1..] == words[1..] + [word];
    }
  }

  /** The command, then each argument behind exactly one space. */
  lemma CommandGrows(command: string, args: seq<string>, arg: string)
    ensures FormatCopyableCommand(command, []) == QuoteShellArgument(command)
    ensures FormatCopyableCommand(command, args + [arg])
         == FormatCopyableCommand(command, args) + " " + QuoteShellArgument(arg)
  {
    QuoteAllGrows([command] + args, arg);
    JoinBySpacesGrows(QuoteAll([command] + args), QuoteShellArgument(arg));
    assert [command] + (args + [arg]) == [command] + args + [arg];
    QuoteAllGrows([], command);
    assert [command] + [] == [command] && [] + [command] == [command];
  }

  // ---------------------------------------------------------------- the shell

  datatype Quoting = Bare | Single | Double

  predicate IsBlank(c: char) {
    c == ' ' || c == '\t'
  }

  /** Unquoted characters that start an operator, an expansion, a pattern or a new command. */
  predicate IsSpecial(c: char) {
    c in "|&;<>()$`*?[\n"
  }

  /** Characters a backslash escapes inside double quotes. */
  predicate IsEscapable(c: char) {
    c in "$`\"\\\n"
  }

  function Extend(word: Option<string>, s: string): Option<string> {
    Some((if word.Some? then word.value else "") + s)
  }

  function Emit(word: Option<string>, rest: Option<seq<string>>): Option<seq<string>> {
    if rest.None? then None else if word.None? then rest else Some([word.value] + rest.value)
  }

  /**
   * The words of a simple command after quote removal, `word` being the one under construction.
   * `None` is anything but plain words: an unterminated quote, an operator, an expansion, a
   * pattern, a comment or a tilde prefix.
   */
  function Words(s: string, quoting: Quoting, word: Option<string>): Option<seq<string>>
    decreases |s|
  {
    if s == "" then
      if quoting.Bare? then Emit(word, Some([])) else None
    else
      var c, rest := s[0], s[1..];
      match quoting
      case Single =>
        if c == '\'' then Words(rest, Bare, word) else Words(rest, Single, Extend(word, [c]))
      case Double =>
        if c == '"' then Words(rest, Bare, word)
        else if c == '$' || c == '`' then None
        else if c == '\\' && rest != "" && IsEscapable(rest[0]) then
          Words(rest[1..], Double, Extend(word, if rest[0] == '\n' then "" else [rest[0]]))
        else Words(rest, Double, Extend(word, [c]))
      case Bare =>
        if IsBlank(c) then Emit(word, Words(rest, Bare, None))
        else if c == '\'' then Words(rest, Single, Extend(word, ""))
        else if c == '"' then Words(rest, Double, Extend(word, ""))
        else if c == '\\' then
          if rest == "" then Words(rest, Bare, Extend(word, [c]))
          else if rest[0] == '\n' then Words(rest[1..], Bare, word)
          else Words(rest[1..], Bare, Extend(word, [rest[0]]))
        else if IsSpecial(c) || (word.None? && (c == '#' || c == '~')) then None
        else Words(rest, Bare, Extend(word, [c]))
  }

  function ShellWords(s: string): Option<seq<string>> {
    Words(s, Bare, None)
  }

  // ---------------------------------------------------------------- round trip

  lemma PlainIsOrdinary(c: char)
    requires IsPlain(c)
    ensures !IsBlank(c) && !IsSpecial(c) && c != '\'' && c != '"' && c != '\\' && c != '#' && c != '~'
  {
  }

  lemma {:induction false} PlainTextReadsBack(text: string, rest: string, word: Option<string>)
    requires forall c :: c in text ==> IsPlain(c)
    requires text != "" || word.Some?
    ensures Words(text + rest, Bare, word) == Words(rest, Bare, Extend(word, text))
    decreases |text|
  {
    var sofar := if word.Some? then word.value else "";
    if text == "" {
      assert text + rest == rest;
      assert sofar + text == sofar;
    } else {
      var next := Extend(word, [text[0]]);
      PlainIsOrdinary(text[0]);
      assert (text + rest)[1..] == text[1..] + rest;
      assert Words(text + rest, Bare, word) == Words(text[1..] + rest, Bare, next);
      PlainTextReadsBack(text[1..], rest, next);
      assert sofar + [text[0]] + text[1..] == sofar + text;
    }
  }

  /** A single quote inside single-quoted text comes back as itself. */
  lemma EscapedQuoteReadsBack(rest: string, word: string)
    ensures Words(ESCAPED_QUOTE + rest, Single, Some(word)) == Words(rest, Single, Some(word + "'"))
  {
    var s := ESCAPED_QUOTE + rest;
    assert s[1..] == "\"'\"'" + rest;
    assert s[1..][1..] == "'\"'" + rest;
    assert s[1..][1..][1..] == "\"'" + rest;
    assert s[1..][1..][1..][1..] == "'" + rest;
    assert s[1..][1..][1..][1..][1..] == rest;
    assert word + "" == word && word + "'" + "" == word + "'";
    assert Words(s, Single, Some(word)) == Words(s[1..], Bare, Some(word));
    assert Words(s[1..], Bare, Some(word)) == Words(s[1..][1..], Double, Some(word));
    assert Words(s[1..][1..], Double, Some(word)) == Words(s[1..][1..][1..], Double, Some(word + "'"));
    assert Words(s[1..][1..][1..], Double, Some(word + "'")) == Words(s[1..][1..][1..][1..], Bare, Some(word + "'"));
  }

  lemma {:induction false} QuotedTextReadsBack(value: string, rest: string, word: string)
    ensures Words(EscapeQuotes(value) + "'" + rest, Single, Some(word)) == Words(rest, Bare, Some(word + value))
    decreases |value|
  {
    var s := EscapeQuotes(value) + "'" + rest;
    if value == "" {
      assert s == "'" + rest && s[1..] == rest && word + value == word;
    } else {
      var tail := EscapeQuotes(value[1..]) + "'" + rest;
      if value[0] == '\'' {
        assert s == ESCAPED_QUOTE + tail;
        EscapedQuoteReadsBack(tail, word);
      } else {
        assert s == [value[0]] + tail && s[1..] == tail;
      }
      QuotedTextReadsBack(value[1..], rest, word + [value[0]]);
      assert word + [value[0]] + value[1..] == word + value;
    }
  }

  lemma QuotedArgumentReadsBack(value: string, rest: string)
    ensures Words(QuoteShellArgument(value) + rest, Bare, None) == Words(rest, Bare, Some(value))
  {
    if value != "" && forall c :: c in value ==> IsPlain(c) {
      PlainTextReadsBack(value, rest, None);
      assert "" + value == value;
    } else {
      var inner := EscapeQuotes(value) + "'" + rest;
      assert QuoteShellArgument(value) + rest == "'" + inner && ("'" + inner)[1..] == inner;
      QuotedTextReadsBack(value, rest, "");
      assert "" + value == value;
    }
  }

  lemma QuotedWordThenRest(word: string, rest: string)
    ensures ShellWords(QuoteShellArgument(word) + " " + rest) == Emit(Some(word), ShellWords(rest))
  {
    var first := QuoteShellArgument(word);
    assert first + " " + rest == first + (" " + rest) && (" " + rest)[1..] == rest;
    QuotedArgumentReadsBack(word, " " + rest);
  }

  lemma {:induction false} QuotedListReadsBack(words: seq<string>)
    requires words != []
    ensures ShellWords(JoinBySpaces(QuoteAll(words))) == Some(words)
    decreases |words|
  {
    var first := QuoteShellArgument(words[0]);
    if |words| == 1 {
      assert QuoteAll(words) == [first] && first + "" == first;
      QuotedArgumentReadsBack(words[0], "");
      assert [words[0]] + [] == words;
    } else {
      QuotedListReadsBack(words[1..]);
      QuotedWordThenRest(words[0], JoinBySpaces(QuoteAll(words[1..])));
      assert QuoteAll(words) == [first] + QuoteAll(words[1..]);
      assert QuoteAll(words)[1..] == QuoteAll(words[1..]);
      assert [words[0]] + words[1..] == words;
    }
  }

  /** Pasted into a shell, the printed command is the command and its arguments, whatever they hold. */
  lemma CopyableCommandRoundTrips(command: string, args: seq<string>)
    ensures ShellWords(FormatCopyableCommand(command, args)) == Some([command] + args)
  {
    QuotedListReadsBack([command] + args);
  }

  /** So two different commands are never printed alike. */
  lemma CopyableCommandIsInjective(c1: string, a1: seq<string>, c2: string, a2: seq<string>)
    requires FormatCopyableCommand(c1, a1) == FormatCopyableCommand(c2, a2)
    ensures c1 == c2 && a1 == a2
  {
    CopyableCommandRoundTrips(c1, a1);
    CopyableCommandRoundTrips(c2, a2);
    assert a1 == ([c1] + a1)[1..] && a2 == ([c2] + a2)[1..];
  }
}
