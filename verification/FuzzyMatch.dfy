/**
 Matching palette queries (commands.rs:388-457): a greedy left-to-right scan for the
 query's characters, scored by byte offsets, and the ranking of what matches. Queries
 and titles reach the scan in lower case; case mapping itself is not modelled.
 */
module FuzzyMatch {
  import opened Common
  import opened Text
  import Keymap

  /** Bytes of one character in UTF-8. */
  function Utf8Length(c: char): (n: nat)
    ensures 1 <= n <= 4
  {
    var v := c as int;
    if v < 0x80 then 1 else if v < 0x800 then 2 else if v < 0x10000 then 3 else 4
  }

  /** The byte offset of character `i`. */
  function Offset(haystack: string, i: nat): nat
    requires i <= |haystack|
  {
    if i == 0 then 0 else Offset(haystack, i - 1) + Utf8Length(haystack[i - 1])
  }

  /** `at` places the characters of `needle` in `haystack`, in order. */
  predicate Embeds(needle: string, haystack: string, at: seq<nat>) {
    |at| == |needle|
    && (forall k :: 0 <= k < |at| ==> at[k] < |haystack| && haystack[at[k]] == needle[k])
    && (forall j, k :: 0 <= j < k < |at| ==> at[j] < at[k])
  }

  function FirstFrom(haystack: string, c: char, from: nat): (i: nat)
    requires from <= |haystack|
    ensures from <= i <= |haystack| && (i < |haystack| ==> haystack[i] == c)
    ensures forall j :: from <= j < i ==> haystack[j] != c
    decreases |haystack| - from
  {
    if from == |haystack| || haystack[from] == c then from else FirstFrom(haystack, c, from + 1)
  }

  /** The leftmost placement at or after `from`, if there is one. */
  function Leftmost(needle: string, haystack: string, from: nat): Option<seq<nat>>
    requires from <= |haystack|
    decreases |needle|
  {
    if needle == "" then Some([])
    else
      var i := FirstFrom(haystack, needle[0], from);
      if i == |haystack| then None
      else
        var rest := Leftmost(needle[1..], haystack, i + 1);
        if rest.None? then None else Some([i] + rest.value)
  }

  lemma {:induction false} LeftmostEmbeds(needle: string, haystack: string, from: nat)
    requires from <= |haystack| && Leftmost(needle, haystack, from).Some?
    ensures var at := Leftmost(needle, haystack, from).value;
            Embeds(needle, haystack, at) && forall k :: 0 <= k < |at| ==> from <= at[k]
    decreases |needle|
  {
    if needle != "" {
      var i := FirstFrom(haystack, needle[0], from);
      LeftmostEmbeds(needle[1..], haystack, i + 1);
    }
  }

  /** Greed loses nothing: wherever the characters can be placed, the leftmost placement exists and is no later. */
  lemma {:induction false} LeftmostIsFirst(needle: string, haystack: string, from: nat, at: seq<nat>)
    requires from <= |haystack| && Embeds(needle, haystack, at) && forall k :: 0 <= k < |at| ==> from <= at[k]
    ensures var first := Leftmost(needle, haystack, from);
            first.Some? && |first.value| == |at| && forall k :: 0 <= k < |at| ==> first.value[k] <= at[k]
    decreases |needle|
  {
    if needle != "" {
      var i := FirstFrom(haystack, needle[0], from);
      assert i <= at[0];
      LeftmostIsFirst(needle[1..], haystack, i + 1, at[1..]);
    }
  }

  // ------------------------------------------------------------ the score

  predicate StartsWord(haystack: string, i: nat, alphanumeric: char -> bool)
    requires i < |haystack|
  {
    i == 0 || !alphanumeric(haystack[i - 1])
  }

  function Points(haystack: string, i: nat, previous: Option<nat>, alphanumeric: char -> bool): int
    requires i < |haystack|
  {
    10 + (if previous.Some? && Offset(haystack, i) == previous.value + 1 then 8 else 0)
    + (if StartsWord(haystack, i, alphanumeric) then 6 else 0) - Offset(haystack, i) / 8
  }

  function Total(haystack: string, at: seq<nat>, alphanumeric: char -> bool): int
    requires forall k :: 0 <= k < |at| ==> at[k] < |haystack|
  {
    if at == [] then 0
    else
      var front, last := at[..|at| - 1], at[|at| - 1];
      Total(haystack, front, alphanumeric) + Points(haystack, last, LastOffset(haystack, front), alphanumeric)
  }

  function LastOffset(haystack: string, at: seq<nat>): Option<nat>
    requires forall k :: 0 <= k < |at| ==> at[k] < |haystack|
  {
    if at == [] then None else Some(Offset(haystack, at[|at| - 1]))
  }

  predicate Subsequence(needle: string, haystack: string) {
    Leftmost(needle, haystack, 0).Some?
  }

  /** The scan finds a placement exactly when one exists at all. */
  lemma SubsequenceIff(needle: string, haystack: string)
    ensures Subsequence(needle, haystack) <==> exists at: seq<nat> :: Embeds(needle, haystack, at)
  {
    if Subsequence(needle, haystack) {
      LeftmostEmbeds(needle, haystack, 0);
    }
    forall at: seq<nat> | Embeds(needle, haystack, at)
      ensures Subsequence(needle, haystack)
    {
      LeftmostIsFirst(needle, haystack, 0, at);
    }
  }

  function ScoreOf(needle: string, haystack: string, alphanumeric: char -> bool): Option<int> {
    if needle == "" || !Subsequence(needle, haystack) then None
    else
      LeftmostEmbeds(needle, haystack, 0);
      var at := Leftmost(needle, haystack, 0).value;
      Some(Total(haystack, at, alphanumeric) + if needle == haystack then 20 else 0)
  }

  function Before(at: seq<nat>, rest: Option<seq<nat>>): Option<seq<nat>> {
    if rest.None? then None else Some(at + rest.value)
  }

  /** Two consecutive matches earn the adjacency bonus exactly when they are neighbours and the first is ASCII. */
  lemma AdjacentIff(haystack: string, i: nat, j: nat)
    requires i < j < |haystack|
    ensures Offset(haystack, j) == Offset(haystack, i) + 1 <==> (j == i + 1 && Utf8Length(haystack[i]) == 1)
  {
    OffsetsGrow(haystack, i + 1, j);
  }

  lemma {:induction false} OffsetsGrow(haystack: string, i: nat, j: nat)
    requires i <= j <= |haystack|
    ensures Offset(haystack, j) >= Offset(haystack, i) + (j - i)
  {
    if i < j {
      OffsetsGrow(haystack, i, j - 1);
    }
  }

  /** The leftmost placement begins with `at`, and the rest of it comes from `i` on. */
  ghost predicate Placed(needle: string, haystack: string, i: nat, at: seq<nat>) {
    i <= |haystack| && |at| <= |needle|
    && Leftmost(needle, haystack, 0) == Before(at, Leftmost(needle[|at|..], haystack, i))
  }

  /** After the characters before `i`: `at` is the start of the leftmost placement, and scored. */
  ghost predicate Scanned(needle: string, haystack: string, i: nat, at: seq<nat>, score: int, previous: Option<nat>,
                          alphanumeric: char -> bool)
  {
    |at| < |needle| && (forall k :: 0 <= k < |at| ==> at[k] < |haystack|) && Placed(needle, haystack, i, at)
    && score == Total(haystack, at, alphanumeric) && previous == LastOffset(haystack, at)
  }

  lemma ScanStarts(needle: string, haystack: string, alphanumeric: char -> bool)
    requires needle != ""
    ensures Scanned(needle, haystack, 0, [], 0, None, alphanumeric)
  {
    assert needle[0..] == needle;
    BeforeNone(Leftmost(needle, haystack, 0));
  }

  lemma ScanSkips(needle: string, haystack: string, i: nat, at: seq<nat>, score: int, previous: Option<nat>,
                  alphanumeric: char -> bool)
    requires Scanned(needle, haystack, i, at, score, previous, alphanumeric) && i < |haystack| && haystack[i] != needle[|at|]
    ensures Scanned(needle, haystack, i + 1, at, score, previous, alphanumeric)
  {
    hide Total, LastOffset, Leftmost, Before;
    ScanStep(needle[|at|..], haystack, i);
  }

  lemma ScanTakes(needle: string, haystack: string, i: nat, at: seq<nat>, score: int, previous: Option<nat>,
                  alphanumeric: char -> bool)
    requires Scanned(needle, haystack, i, at, score, previous, alphanumeric) && i < |haystack| && haystack[i] == needle[|at|]
    ensures var gained := score + Points(haystack, i, previous, alphanumeric);
            if |at| + 1 < |needle| then Scanned(needle, haystack, i + 1, at + [i], gained, Some(Offset(haystack, i)), alphanumeric)
            else Leftmost(needle, haystack, 0) == Some(at + [i]) && gained == Total(haystack, at + [i], alphanumeric)
  {
    hide Points, Leftmost, FirstFrom, Total, LastOffset, Before;
    PlacedOne(needle, haystack, i, at);
    TotalMore(haystack, at, i, alphanumeric);
    if |at| + 1 == |needle| {
      PlacedAll(needle, haystack, i + 1, at + [i]);
    }
  }

  lemma PlacedOne(needle: string, haystack: string, i: nat, at: seq<nat>)
    requires i < |haystack| && |at| < |needle| && haystack[i] == needle[|at|] && Placed(needle, haystack, i, at)
    ensures Placed(needle, haystack, i + 1, at + [i])
  {
    hide Leftmost, FirstFrom;
    var rest := needle[|at|..];
    ScanStep(rest, haystack, i);
    assert rest[1..] == needle[|at| + 1..];
    BeforeMore(at, i, Leftmost(rest[1..], haystack, i + 1));
  }

  lemma PlacedAll(needle: string, haystack: string, i: nat, at: seq<nat>)
    requires |at| == |needle| && Placed(needle, haystack, i, at)
    ensures Leftmost(needle, haystack, 0) == Some(at)
  {
    LeftmostNone(haystack, i);
    assert needle[|at|..] == "" && at + [] == at;
  }

  lemma TotalMore(haystack: string, at: seq<nat>, i: nat, alphanumeric: char -> bool)
    requires (forall k :: 0 <= k < |at| ==> at[k] < |haystack|) && i < |haystack|
    ensures Total(haystack, at + [i], alphanumeric)
         == Total(haystack, at, alphanumeric) + Points(haystack, i, LastOffset(haystack, at), alphanumeric)
    ensures LastOffset(haystack, at + [i]) == Some(Offset(haystack, i))
  {
    hide Points;
    assert (at + [i])[..|at|] == at;
  }

  method FuzzyScore(needle: string, haystack: string, alphanumeric: char -> bool) returns (r: Option<int>)
    ensures r == ScoreOf(needle, haystack, alphanumeric)
    ensures r.Some? <==> needle != "" && exists at: seq<nat> :: Embeds(needle, haystack, at)
  {
    hide Embeds, Points, Leftmost, Scanned, Total;
    SubsequenceIff(needle, haystack);
    if needle == "" {
      return None;
    }
    var matched, score, index := 0, 0, 0;
    var previous: Option<nat> := None;
    ghost var at: seq<nat> := [];
    ScanStarts(needle, haystack, alphanumeric);
    for i := 0 to |haystack|
      invariant matched == |at| < |needle| && index == Offset(haystack, i)
      invariant Scanned(needle, haystack, i, at, score, previous, alphanumeric)
    {
      if haystack[i] == needle[matched] {
        ScanTakes(needle, haystack, i, at, score, previous, alphanumeric);
        score := score + Gain(haystack, i, index, previous, alphanumeric);
        at := at + [i];
        previous := Some(index);
        matched := matched + 1;
        if matched == |needle| {
          return Some(score + if needle == haystack then 20 else 0);
        }
      } else {
        ScanSkips(needle, haystack, i, at, score, previous, alphanumeric);
      }
      index := index + Utf8Length(haystack[i]);
    }
    ScanEnds(needle, haystack, at, score, previous, alphanumeric);
    return None;
  }

  lemma ScanEnds(needle: string, haystack: string, at: seq<nat>, score: int, previous: Option<nat>, alphanumeric: char -> bool)
    requires Scanned(needle, haystack, |haystack|, at, score, previous, alphanumeric)
    ensures Leftmost(needle, haystack, 0) == None
  {
    NothingLeft(needle[|at|..], haystack);
  }

  function Gain(haystack: string, i: nat, index: nat, previous: Option<nat>, alphanumeric: char -> bool): (points: int)
    requires i < |haystack| && index == Offset(haystack, i)
    ensures points == Points(haystack, i, previous, alphanumeric)
  {
    10 + (if previous.Some? && index == previous.value + 1 then 8 else 0)
    + (if i == 0 || !alphanumeric(haystack[i - 1]) then 6 else 0) - index / 8
  }

  lemma BeforeNone(rest: Option<seq<nat>>)
    ensures Before([], rest) == rest
  {
    if rest.Some? {
      assert [] + rest.value == rest.value;
    }
  }

  lemma BeforeMore(at: seq<nat>, i: nat, rest: Option<seq<nat>>)
    ensures Before(at + [i], rest) == Before(at, Before([i], rest))
  {
    if rest.Some? {
      assert at + [i] + rest.value == at + ([i] + rest.value);
    }
  }

  /** One character of the scan: taken if it is wanted, passed over otherwise. */
  lemma ScanStep(needle: string, haystack: string, i: nat)
    requires needle != "" && i < |haystack|
    ensures Leftmost(needle, haystack, i) ==
            if haystack[i] == needle[0] then Before([i], Leftmost(needle[1..], haystack, i + 1))
            else Leftmost(needle, haystack, i + 1)
  {
  }

  lemma LeftmostNone(haystack: string, i: nat)
    requires i <= |haystack|
    ensures Leftmost("", haystack, i) == Some([])
  {
  }

  lemma NothingLeft(needle: string, haystack: string)
    requires needle != ""
    ensures Leftmost(needle, haystack, |haystack|) == None
  {
  }

  // ------------------------------------------------------------ ranking

  datatype Match = Match(command: nat, title: string, score: int)

  /** `a` may stand before `b`: a higher score, or the same score and no later a title. */
  predicate Ranks(a: Match, b: Match) {
    a.score > b.score || (a.score == b.score && !Keymap.Less(b.title, a.title))
  }

  predicate Ranked(matches: seq<Match>) {
    forall i, j :: 0 <= i < j < |matches| ==> Ranks(matches[i], matches[j])
  }

  function InsertRanked(matches: seq<Match>, m: Match): seq<Match> {
    if matches == [] || Ranks(matches[|matches| - 1], m) then matches + [m]
    else InsertRanked(matches[..|matches| - 1], m) + [matches[|matches| - 1]]
  }

  function SortRanked(matches: seq<Match>): seq<Match> {
    if matches == [] then [] else InsertRanked(SortRanked(matches[..|matches| - 1]), matches[|matches| - 1])
  }

  function Truncated(matches: seq<Match>, limit: nat): seq<Match> {
    if |matches| > limit then matches[..limit] else matches
  }

  lemma RanksTransitive(a: Match, b: Match, c: Match)
    requires Ranks(a, b) && Ranks(b, c)
    ensures Ranks(a, c)
  {
    if a.score == b.score == c.score && Keymap.Less(c.title, a.title) {
      Keymap.LessTotal(a.title, b.title);
      if a.title != b.title {
        Keymap.LessTransitive(c.title, a.title, b.title);
      }
    }
  }

  lemma RanksTotal(a: Match, b: Match)
    ensures Ranks(a, b) || Ranks(b, a)
  {
    Keymap.LessTotal(a.title, b.title);
  }

  predicate AllRank(matches: seq<Match>, m: Match) {
    forall i :: 0 <= i < |matches| ==> Ranks(matches[i], m)
  }

  lemma {:induction false} InsertAllRank(matches: seq<Match>, m: Match, last: Match)
    requires AllRank(matches, last) && Ranks(m, last)
    ensures AllRank(InsertRanked(matches, m), last)
  {
    hide Ranks;
    if matches != [] && !Ranks(matches[|matches| - 1], m) {
      InsertAllRank(matches[..|matches| - 1], m, last);
    }
  }

  lemma {:induction false} InsertRanks(matches: seq<Match>, m: Match)
    requires Ranked(matches)
    ensures Ranked(InsertRanked(matches, m))
    ensures multiset(InsertRanked(matches, m)) == multiset(matches) + multiset{m}
  {
    hide Ranks;
    if matches == [] {
    } else {
      var front, last := matches[..|matches| - 1], matches[|matches| - 1];
      assert matches == front + [last];
      if Ranks(last, m) {
        forall i | 0 <= i < |front|
          ensures Ranks(matches[i], m)
        {
          RanksTransitive(matches[i], last, m);
        }
      } else {
        RanksTotal(last, m);
        InsertRanks(front, m);
        InsertAllRank(front, m, last);
        var r := InsertRanked(front, m);
        assert multiset(r + [last]) == multiset(r) + multiset{last};
      }
    }
  }

  lemma {:induction false} SortRanks(matches: seq<Match>)
    ensures Ranked(SortRanked(matches)) && multiset(SortRanked(matches)) == multiset(matches)
  {
    if matches != [] {
      var front, last := matches[..|matches| - 1], matches[|matches| - 1];
      SortRanks(front);
      InsertRanks(SortRanked(front), last);
      assert matches == front + [last];
    }
  }

  /** The palette shows the best: in rank order, and nothing it leaves out ranks before anything it shows. */
  lemma ShownAreBest(matches: seq<Match>, limit: nat)
    ensures var shown := Truncated(SortRanked(matches), limit);
            && |shown| == (if |matches| < limit then |matches| else limit) && Ranked(shown)
            && multiset(shown) <= multiset(matches)
            && forall i, m :: 0 <= i < |shown| && m in multiset(matches) - multiset(shown) ==> Ranks(shown[i], m)
  {
    hide Ranks, SortRanked;
    SortRanks(matches);
    var sorted := SortRanked(matches);
    var shown := Truncated(sorted, limit);
    SameLength(sorted, matches);
    CutCounts(sorted, |shown|);
    forall i, m | 0 <= i < |shown| && m in multiset(matches) - multiset(shown)
      ensures Ranks(shown[i], m)
    {
      LeftOut(sorted, |shown|, m);
    }
  }

  lemma CutCounts(sorted: seq<Match>, n: nat)
    requires n <= |sorted|
    ensures multiset(sorted) - multiset(sorted[..n]) == multiset(sorted[n..]) && multiset(sorted[..n]) <= multiset(sorted)
  {
    assert sorted == sorted[..n] + sorted[n..];
  }

  lemma LeftOut(sorted: seq<Match>, n: nat, m: Match)
    requires n <= |sorted| && m in multiset(sorted[n..])
    ensures exists j :: n <= j < |sorted| && sorted[j] == m
  {
    var j :| 0 <= j < |sorted[n..]| && sorted[n..][j] == m;
    assert sorted[n + j] == m;
  }

  lemma SameLength(a: seq<Match>, b: seq<Match>)
    requires multiset(a) == multiset(b)
    ensures |a| == |b|
  {
    assert |multiset(a)| == |a| && |multiset(b)| == |b|;
  }

  // ------------------------------------------------------------ the palette

  datatype Command = Command(command: nat, id: string, title: string)

  /** `query` is trimmed already; `lower` maps a string to lower case. */
  function MatchOf(query: string, c: Command, lower: string -> string, alphanumeric: char -> bool): Option<Match> {
    if query == "" then Some(Match(c.command, c.title, 0))
    else
      var byTitle := ScoreOf(lower(query), lower(c.title), alphanumeric);
      var score := if byTitle.Some? then byTitle else ScoreOf(lower(query), lower(c.id), alphanumeric);
      if score.None? then None else Some(Match(c.command, c.title, score.value))
  }

  function Found(query: string, commands: seq<Command>, lower: string -> string, alphanumeric: char -> bool): seq<Match> {
    if commands == [] then []
    else
      var m := MatchOf(query, commands[|commands| - 1], lower, alphanumeric);
      Found(query, commands[..|commands| - 1], lower, alphanumeric) + if m.Some? then [m.value] else []
  }

  method PaletteMatches(query: string, commands: seq<Command>, limit: nat, lower: string -> string, alphanumeric: char -> bool)
    returns (shown: seq<Match>)
    ensures var found := Found(Trim(query), commands, lower, alphanumeric);
            shown == Truncated(if Trim(query) == "" then found else SortRanked(found), limit)
  {
    hide ScoreOf, InsertRanked;
    var trimmed := Trim(query);
    var matches := [];
    for i := 0 to |commands|
      invariant matches == Found(trimmed, commands[..i], lower, alphanumeric)
    {
      assert commands[..i + 1][..i] == commands[..i];
      var score := Some(0);
      if trimmed != "" {
        score := FuzzyScore(lower(trimmed), lower(commands[i].title), alphanumeric);
        if score.None? {
          score := FuzzyScore(lower(trimmed), lower(commands[i].id), alphanumeric);
        }
      }
      if score.Some? {
        matches := matches + [Match(commands[i].command, commands[i].title, score.value)];
      }
    }
    assert commands[..|commands|] == commands;
    if trimmed != "" {
      var sorted := [];
      for i := 0 to |matches|
        invariant sorted == SortRanked(matches[..i])
      {
        assert matches[..i + 1][..i] == matches[..i];
        sorted := InsertRanked(sorted, matches[i]);
      }
      assert matches[..|matches|] == matches;
      matches := sorted;
    }
    return Truncated(matches, limit);
  }

  lemma {:induction false} AllFoundWhenBlank(commands: seq<Command>, lower: string -> string, alphanumeric: char -> bool)
    ensures var found := Found("", commands, lower, alphanumeric);
            |found| == |commands| && forall i :: 0 <= i < |found| ==> found[i] == Match(commands[i].command, commands[i].title, 0)
  {
    if commands != [] {
      AllFoundWhenBlank(commands[..|commands| - 1], lower, alphanumeric);
    }
  }

  /** A command is offered for a query exactly when its title or its id holds the query's letters in order. */
  lemma OfferedIff(query: string, c: Command, lower: string -> string, alphanumeric: char -> bool)
    requires query != "" && lower(query) != ""
    ensures MatchOf(query, c, lower, alphanumeric).Some?
            <==> ((exists at: seq<nat> :: Embeds(lower(query), lower(c.title), at))
                  || (exists at: seq<nat> :: Embeds(lower(query), lower(c.id), at)))
  {
    SubsequenceIff(lower(query), lower(c.title));
    SubsequenceIff(lower(query), lower(c.id));
  }
}
