/**
 The two shell printers of the client and the POSIX word splitter that undoes
 them: backslash-escaped paths (image_transfer.rs) and single-quoted programs
 (agent_progress.rs).
 */
module ShellWords {
  import opened Common
  import opened Text

  // ----------------------------------------------------------------- splitting

  datatype Mode = Plain | Escaped | Quoted

  predicate Blank(c: char) {
    c == ' ' || c == '\t'
  }

  /** Characters that end a command, introduce an expansion or otherwise lose
      their literal meaning when unquoted. */
  predicate Special(c: char) {
    c == '\n' || c == '|' || c == '&' || c == ';' || c == '<' || c == '>' || c == '(' || c == ')' || c == '$'
    || c == '`' || c == '\"' || c == '*' || c == '?' || c == '[' || c == '#' || c == '~' || c == '=' || c == '%'
  }

  /** POSIX.1-2017 Shell Command Language: token recognition (section 2.3) with
      the escape character (2.2.1) and single quotes (2.2.2). `word` is the word
      read so far, if one has begun. Unquoted special characters and unfinished
      quoting are outside this fragment. */
  function Split(s: string, mode: Mode, word: Option<string>): Option<seq<string>>
    decreases |s|
  {
    if s == "" then
      if mode != Plain then None else Some(if word.Some? then [word.value] else [])
    else
      var c, rest := s[0], s[1..];
      var extended := Some(word.GetOr("") + [c]);
      match mode
      case Escaped => Split(rest, Plain, if c == '\n' then word else extended)
      case Quoted => if c == '\'' then Split(rest, Plain, word) else Split(rest, Quoted, extended)
      case Plain =>
        if c == '\\' then Split(rest, Escaped, word)
        else if c == '\'' then Split(rest, Quoted, Some(word.GetOr("")))
        else if Blank(c) then
          match Split(rest, Plain, None)
          case None => None
          case Some(words) => Some(if word.Some? then [word.value] + words else words)
        else if Special(c) then None
        else Split(rest, Plain, extended)
  }

  function Words(s: string): Option<seq<string>> {
    Split(s, Plain, None)
  }

  // ------------------------------------------------------------ escaped paths

  predicate Unescaped(c: char) {
    c as int >= 0x80 || AsciiAlphanumeric(c) || c == '/' || c == '.' || c == '_' || c == '-'
  }

  function EscapeChar(c: char): string {
    if Unescaped(c) then [c] else ['\\', c]
  }

  function EscapePath(path: string): string {
    if path == "" then "" else EscapeChar(path[0]) + EscapePath(path[1..])
  }

  function JoinPaths(paths: seq<string>): string {
    if paths == [] then ""
    else if |paths| == 1 then EscapePath(paths[0])
    else EscapePath(paths[0]) + " " + JoinPaths(paths[1..])
  }

  /** The loop of `shell_escape_path`. */
  method ShellEscapePath(value: string) returns (escaped: string)
    ensures escaped == EscapePath(value)
  {
    escaped := "";
    for i := 0 to |value|
      invariant EscapePath(value) == escaped + EscapePath(value[i..])
    {
      var character := value[i];
      var piece: string := [];
      if character as int < 0x80 && !AsciiAlphanumeric(character)
        && character != '/' && character != '.' && character != '_' && character != '-'
      {
        piece := piece + ['\\'];
      }
      piece := piece + [character];
      assert piece == EscapeChar(character);
      EscapeFirst(value[i..]);
      Associative(escaped, piece, EscapePath(value[i + 1..]));
      escaped := escaped + piece;
    }
  }

  lemma EscapeFirst(path: string)
    requires path != ""
    ensures EscapePath(path) == EscapeChar(path[0]) + EscapePath(path[1..])
  {
  }

  lemma {:induction false} EscapesInOrder(a: string, b: string)
    ensures EscapePath(a + b) == EscapePath(a) + EscapePath(b)
  {
    if a == "" {
      assert a + b == b;
    } else {
      assert (a + b)[0] == a[0] && (a + b)[1..] == a[1..] + b;
      EscapesInOrder(a[1..], b);
    }
  }

  /** Letters, digits, the characters `/._-` and everything beyond ASCII. */
  predicate NeedsNoEscape(c: char) {
    '0' <= c <= '9' || 'A' <= c <= 'Z' || 'a' <= c <= 'z' || c == '/' || c == '.' || c == '_' || c == '-' || c as int > 127
  }

  /** A path is typed as it is exactly if none of its characters needs a backslash. */
  lemma {:induction false} TypedAsItIsIff(path: string)
    ensures |EscapePath(path)| >= |path|
    ensures EscapePath(path) == path <==> forall i :: 0 <= i < |path| ==> NeedsNoEscape(path[i])
  {
    if path != "" {
      TypedAsItIsIff(path[1..]);
      assert path == [path[0]] + path[1..];
      if NeedsNoEscape(path[0]) {
        assert EscapePath(path) == [path[0]] + EscapePath(path[1..]);
        assert EscapePath(path)[1..] == EscapePath(path[1..]);
      } else {
        assert |EscapePath(path)| == 2 + |EscapePath(path[1..])|;
      }
      assert forall i :: 0 < i < |path| ==> path[i] == path[1..][i - 1];
    }
  }

  function WithoutNewlines(path: string): string {
    if path == "" then "" else (if path[0] == '\n' then "" else [path[0]]) + WithoutNewlines(path[1..])
  }

  function Read(paths: seq<string>): seq<string> {
    if paths == [] then []
    else (if WithoutNewlines(paths[0]) == "" then [] else [WithoutNewlines(paths[0])]) + Read(paths[1..])
  }

  function Extend(word: Option<string>, more: string): Option<string> {
    if more == "" then word else Some(word.GetOr("") + more)
  }

  lemma ExtendTwice(word: Option<string>, a: string, b: string)
    ensures Extend(Extend(word, a), b) == Extend(word, a + b)
  {
    if a == "" {
      assert a + b == b;
    } else if b == "" {
      assert a + b == a;
    } else {
      assert (word.GetOr("") + a) + b == word.GetOr("") + (a + b);
    }
  }

  /** One escaped character reads back as itself, a newline as nothing. */
  lemma SplitEscapedChar(c: char, tail: string, word: Option<string>)
    ensures Split(EscapeChar(c) + tail, Plain, word) == Split(tail, Plain, Extend(word, if c == '\n' then "" else [c]))
  {
    var s := EscapeChar(c) + tail;
    if Unescaped(c) {
      assert s[0] == c && s[1..] == tail;
    } else {
      assert s[0] == '\\' && s[1..] == [c] + tail && s[1..][0] == c && s[1..][1..] == tail;
      assert Split(s, Plain, word) == Split(s[1..], Escaped, word);
    }
  }

  lemma {:induction false} SplitEscaped(path: string, rest: string, word: Option<string>)
    ensures Split(EscapePath(path) + rest, Plain, word) == Split(rest, Plain, Extend(word, WithoutNewlines(path)))
    decreases path
  {
    if path == "" {
      assert EscapePath(path) + rest == rest;
    } else {
      var c := path[0];
      var kept := if c == '\n' then "" else [c];
      Associative(EscapeChar(c), EscapePath(path[1..]), rest);
      hide Split; hide EscapeChar;
      SplitEscapedChar(c, EscapePath(path[1..]) + rest, word);
      SplitEscaped(path[1..], rest, Extend(word, kept));
      ExtendTwice(word, kept, WithoutNewlines(path[1..]));
    }
  }

  /** What a POSIX shell reads from the typed text, for every list of paths. */
  lemma {:induction false} JoinedPathsRead(paths: seq<string>)
    ensures Words(JoinPaths(paths)) == Some(Read(paths))
  {
    if paths != [] {
      var first := WithoutNewlines(paths[0]);
      assert "" + first == first;
      if |paths| == 1 {
        OnePathRead(paths[0]);
        var read: seq<string> := if WithoutNewlines(paths[0]) == "" then [] else [WithoutNewlines(paths[0])];
        assert Read(paths[1..]) == [] && read + [] == read;
        assert JoinPaths(paths) == EscapePath(paths[0]) && Read(paths) == read;
      } else {
        var rest := JoinPaths(paths[1..]);
        SplitEscaped(paths[0], " " + rest, None);
        JoinedPathsRead(paths[1..]);
        assert (" " + rest)[0] == ' ' && (" " + rest)[1..] == rest;
        assert first == "" ==> Read(paths) == Read(paths[1..]);
        Associative(EscapePath(paths[0]), " ", rest);
      }
    }
  }

  lemma OnePathRead(path: string)
    ensures Words(EscapePath(path)) == Some(if WithoutNewlines(path) == "" then [] else [WithoutNewlines(path)])
  {
    var first := WithoutNewlines(path);
    SplitEscaped(path, "", None);
    assert EscapePath(path) + "" == EscapePath(path) && "" + first == first;
    assert Split("", Plain, Extend(None, first)) == Some(if first == "" then [] else [first]);
  }

  /** The typed text reads back as the original list exactly when every path is
      nonempty and free of newlines. */
  lemma JoinedPathsParseBackIff(paths: seq<string>)
    ensures Words(JoinPaths(paths)) == Some(paths)
       <==> forall p :: p in paths ==> p != "" && '\n' !in p
  {
    JoinedPathsRead(paths);
    ReadIsIdentityIff(paths);
  }

  lemma {:induction false} ReadIsIdentityIff(paths: seq<string>)
    ensures Read(paths) == paths <==> forall p :: p in paths ==> p != "" && '\n' !in p
  {
    if forall p :: p in paths ==> p != "" && '\n' !in p {
      ReadsPlain(paths);
    } else if Read(paths) == paths {
      ReadIsPlain(paths);
    }
  }

  lemma {:induction false} ReadsPlain(paths: seq<string>)
    requires forall p :: p in paths ==> p != "" && '\n' !in p
    ensures Read(paths) == paths
  {
    if paths != [] {
      NewlinesKept(paths[0]);
      ReadsPlain(paths[1..]);
    }
  }

  lemma {:induction false} NewlinesKept(path: string)
    ensures '\n' !in WithoutNewlines(path)
    ensures '\n' !in path ==> WithoutNewlines(path) == path
  {
    if path != "" {
      NewlinesKept(path[1..]);
    }
  }

  lemma {:induction false} ReadIsPlain(paths: seq<string>)
    ensures forall p :: p in Read(paths) ==> p != "" && '\n' !in p
  {
    if paths != [] {
      NewlinesKept(paths[0]);
      ReadIsPlain(paths[1..]);
    }
  }

  // ------------------------------------------------------------ single quotes

  function QuoteBody(text: string): string {
    if text == "" then "" else (if text[0] == '\'' then "'\\''" else [text[0]]) + QuoteBody(text[1..])
  }

  /** `shell_quote`. */
  function ShellQuote(text: string): string {
    "'" + QuoteBody(text) + "'"
  }

  predicate BareWord(text: string) {
    text != "" && forall c :: c in text ==> c !in "\"\\$` '"
  }

  /** One quoted segment with the escaped quote that may follow it, and what is left. */
  datatype Segment = Segment(text: string, rest: string)

  function FirstSegment(rest: string): (r: Option<Segment>)
    requires rest != "" && rest[0] == '\''
    ensures r.Some? ==> |r.value.rest| < |rest|
  {
    var quoted := rest[1..];
    var end := Find(quoted, '\'');
    if end == |quoted| then None
    else
      var after := quoted[end + 1..];
      if "\\'" <= after then Some(Segment(quoted[..end] + "'", after[2..])) else Some(Segment(quoted[..end], after))
  }

  /** The quoted segments of `rest`, appended to `unquoted`. */
  function UnquoteSegments(rest: string, unquoted: string): Option<string>
    decreases |rest|
  {
    if rest == "" then Some(unquoted)
    else if rest[0] != '\'' then None
    else
      var segment := FirstSegment(rest);
      if segment.None? then None else UnquoteSegments(segment.value.rest, unquoted + segment.value.text)
  }

  function Unquote(text: string): Option<string> {
    var t := Trim(text);
    if t == "" || t[0] != '\'' then (if BareWord(t) then Some(t) else None) else UnquoteSegments(t, "")
  }

  /** The loop of `shell_unquote`. */
  method ShellUnquote(text: string) returns (r: Option<string>)
    ensures r == Unquote(text)
  {
    var trimmed := Trim(text);
    if trimmed == "" || trimmed[0] != '\'' {
      return if BareWord(trimmed) then Some(trimmed) else None;
    }
    hide UnquoteSegments, FirstSegment, Trim;
    var unquoted, rest := "", trimmed;
    while rest != "" && rest[0] == '\''
      invariant UnquoteSegments(rest, unquoted) == UnquoteSegments(trimmed, "")
      decreases |rest|
    {
      SegmentsNext(rest, unquoted);
      var segment := FirstSegment(rest);
      if segment.None? {
        return None;
      }
      unquoted := unquoted + segment.value.text;
      rest := segment.value.rest;
    }
    SegmentsEnd(rest, unquoted);
    return if rest == "" then Some(unquoted) else None;
  }

  lemma SegmentsNext(rest: string, unquoted: string)
    requires rest != "" && rest[0] == '\''
    ensures var segment := FirstSegment(rest);
            UnquoteSegments(rest, unquoted)
            == if segment.None? then None else UnquoteSegments(segment.value.rest, unquoted + segment.value.text)
  {
    hide FirstSegment;
  }

  lemma SegmentsEnd(rest: string, unquoted: string)
    requires rest == "" || rest[0] != '\''
    ensures UnquoteSegments(rest, unquoted) == if rest == "" then Some(unquoted) else None
  {
  }

  lemma {:induction false} FindFirst(a: string, c: char, b: string)
    requires c !in a
    ensures Find(a + [c] + b, c) == |a|
  {
    var s := a + [c] + b;
    assert s[|a|] == c;
    assert forall j :: 0 <= j < |a| ==> s[j] == a[j];
  }

  /** One step of unquoting: a literal segment, then an escaped quote or not. */
  lemma SegmentStep(literal: string, after: string)
    requires '\'' !in literal
    ensures FirstSegment("'" + (literal + ['\''] + after))
         == Some(if "\\'" <= after then Segment(literal + "'", after[2..]) else Segment(literal, after))
  {
    var quoted := literal + ['\''] + after;
    var rest := "'" + quoted;
    assert rest[0] == '\'' && rest[1..] == quoted;
    FindFirst(literal, '\'', after);
    assert quoted[..|literal|] == literal && quoted[|literal| + 1..] == after;
  }

  /** A quoted string is one literal, or a literal, an escaped quote and the
      rest of the text quoted. */
  lemma QuoteShape(text: string, k: nat)
    requires k < |text| && text[k] == '\'' && forall j :: 0 <= j < k ==> text[j] != '\''
    ensures ShellQuote(text) == "'" + (text[..k] + ['\''] + ("\\'" + ShellQuote(text[k + 1..])))
  {
    QuoteBodySplit(text, k);
    QuoteSplit(text[..k], QuoteBody(text[k + 1..]));
  }

  lemma QuoteShapeLast(text: string)
    requires '\'' !in text
    ensures ShellQuote(text) == "'" + (text + ['\''] + "")
  {
    QuoteBodySplit(text, |text|);
  }

  lemma {:induction false} SegmentsOfQuote(text: string, unquoted: string)
    ensures UnquoteSegments(ShellQuote(text), unquoted) == Some(unquoted + text)
    decreases |text|
  {
    hide UnquoteSegments, ShellQuote, FirstSegment;
    var k := Find(text, '\'');
    var head := text[..k];
    QuotedStarts(text);
    SegmentsNext(ShellQuote(text), unquoted);
    if k == |text| {
      assert head == text;
      QuoteShapeLast(text);
      SegmentStep(head, "");
      SegmentsEnd("", unquoted + head);
    } else {
      var tail := text[k + 1..];
      QuoteShape(text, k);
      EscapedQuoteAhead(ShellQuote(tail));
      SegmentStep(head, "\\'" + ShellQuote(tail));
      SegmentsOfQuote(tail, unquoted + (head + "'"));
      assert text == (head + "'") + tail;
      Associative(unquoted, head + "'", tail);
    }
  }

  lemma QuotedStarts(text: string)
    ensures ShellQuote(text) != "" && ShellQuote(text)[0] == '\''
  {
  }

  lemma EscapedQuoteAhead(tail: string)
    ensures var after := "\\'" + tail; "\\'" <= after && after[2..] == tail
  {
  }

  lemma QuoteSplit(head: string, body: string)
    ensures "'" + (head + ("'\\''" + body)) + "'" == "'" + (head + ['\''] + ("\\'" + ("'" + body + "'")))
  {
  }

  lemma {:induction false} QuoteBodySplit(text: string, k: nat)
    requires k <= |text| && forall j :: 0 <= j < k ==> text[j] != '\''
    ensures k == |text| ==> QuoteBody(text) == text
    ensures k < |text| && text[k] == '\'' ==> QuoteBody(text) == text[..k] + ("'\\''" + QuoteBody(text[k + 1..]))
    decreases k
  {
    if k > 0 {
      QuoteBodySplit(text[1..], k - 1);
      assert text == [text[0]] + text[1..];
      if k < |text| {
        assert text[1..][k - 1 + 1..] == text[k + 1..];
        assert text[..k] == [text[0]] + text[1..][..k - 1];
      }
    }
  }

  /** Quoting round-trips, for every string. */
  lemma UnquoteQuote(text: string)
    ensures Unquote(ShellQuote(text)) == Some(text)
  {
    var q := ShellQuote(text);
    assert q[0] == '\'' && q[|q| - 1] == '\'' && !Whitespace('\'');
    assert Trim(q) == q;
    SegmentsOfQuote(text, "");
    assert "" + text == text;
  }

  lemma QuoteInjective(a: string, b: string)
    requires ShellQuote(a) == ShellQuote(b)
    ensures a == b
  {
    UnquoteQuote(a);
    UnquoteQuote(b);
  }

  lemma {:induction false} SplitQuoted(literal: string, rest: string, word: string)
    requires '\'' !in literal
    ensures Split(literal + ['\''] + rest, Quoted, Some(word)) == Split(rest, Plain, Some(word + literal))
    decreases literal
  {
    if literal == "" {
      var s := literal + ['\''] + rest;
      assert s[0] == '\'' && s[1..] == rest && word + literal == word;
    } else {
      var s := literal + ['\''] + rest;
      assert s[0] == literal[0] && s[1..] == literal[1..] + ['\''] + rest;
      SplitQuoted(literal[1..], rest, word + [literal[0]]);
      assert word + [literal[0]] + literal[1..] == word + literal;
    }
  }

  lemma SplitOpens(rest: string, word: string)
    requires rest != "" && rest[0] == '\''
    ensures Split(rest, Plain, Some(word)) == Split(rest[1..], Quoted, Some(word))
  {
  }

  lemma SplitEscapedQuote(after: string, word: string)
    requires "\\'" <= after
    ensures Split(after, Plain, Some(word)) == Split(after[2..], Plain, Some(word + "'"))
  {
    assert after[0] == '\\' && after[1..][0] == '\'' && after[1..][1..] == after[2..];
  }

  /** A shell reads one segment as the text it stands for. */
  lemma SegmentIsRead(rest: string, word: string)
    requires rest != "" && rest[0] == '\'' && FirstSegment(rest).Some?
    ensures var segment := FirstSegment(rest).value;
            Split(rest, Plain, Some(word)) == Split(segment.rest, Plain, Some(word + segment.text))
  {
    hide Split;
    var quoted := rest[1..];
    var end := Find(quoted, '\'');
    var literal, after := quoted[..end], quoted[end + 1..];
    assert quoted == literal + ['\''] + after;
    SplitOpens(rest, word);
    SplitQuoted(literal, after, word);
    if "\\'" <= after {
      SplitEscapedQuote(after, word + literal);
      Associative(word, literal, "'");
    }
  }

  lemma {:induction false} SegmentsAreOneWord(rest: string, unquoted: string)
    requires UnquoteSegments(rest, unquoted).Some?
    ensures Split(rest, Plain, Some(unquoted)) == Some([UnquoteSegments(rest, unquoted).value])
    decreases |rest|
  {
    hide FirstSegment;
    if rest == "" || rest[0] != '\'' {
      SegmentsEnd(rest, unquoted);
    } else {
      hide UnquoteSegments, Split;
      SegmentsNext(rest, unquoted);
      SegmentIsRead(rest, unquoted);
      var segment := FirstSegment(rest).value;
      SegmentsAreOneWord(segment.rest, unquoted + segment.text);
    }
  }

  /** Whatever quoted text is accepted, the result is the word a POSIX shell
      reads from it. */
  lemma UnquoteIsShellWord(text: string)
    requires Trim(text) != "" && Trim(text)[0] == '\'' && Unquote(text).Some?
    ensures Words(Trim(text)) == Some([Unquote(text).value])
  {
    var t := Trim(text);
    SegmentsAreOneWord(t, "");
    assert Split(t, Plain, None) == Split(t, Plain, Some(""));
  }

  /** A shell reads a quoted string back as the string itself. */
  lemma QuoteIsOneWord(text: string)
    ensures Words(ShellQuote(text)) == Some([text])
  {
    SegmentsOfQuote(text, "");
    assert "" + text == text;
    SegmentsAreOneWord(ShellQuote(text), "");
    assert ShellQuote(text)[0] == '\'';
    assert Split(ShellQuote(text), Plain, None) == Split(ShellQuote(text), Plain, Some(""));
  }
}
