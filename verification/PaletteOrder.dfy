/**
 What the order of the palette means (commands.rs:388-457): higher scores first,
 equal scores by title, equal titles in table order; and what a match is worth.
 */
module PaletteOrder {
  import opened Common
  import opened FuzzyMatch
  import Keymap

  // ------------------------------------------------------------ comparing titles

  /** The strings agree up to `k`, where `a` ends or has the smaller character. */
  ghost predicate SmallerAt(a: string, b: string, k: nat) {
    k <= |a| && k < |b| && (forall i :: 0 <= i < k ==> a[i] == b[i]) && (k == |a| || a[k] < b[k])
  }

  lemma {:induction false} LessIff(a: string, b: string)
    ensures Keymap.Less(a, b) <==> exists k: nat :: SmallerAt(a, b, k)
  {
    if a == "" || b == "" || a[0] != b[0] {
      if Keymap.Less(a, b) {
        assert SmallerAt(a, b, 0);
      }
    } else {
      LessIff(a[1..], b[1..]);
      if Keymap.Less(a, b) {
        var k: nat :| SmallerAt(a[1..], b[1..], k);
        assert forall i :: 0 < i <= k ==> a[i] == a[1..][i - 1] && b[i] == b[1..][i - 1];
        assert SmallerAt(a, b, k + 1);
      }
      forall k: nat | SmallerAt(a, b, k)
        ensures Keymap.Less(a, b)
      {
        assert SmallerAt(a[1..], b[1..], k - 1);
      }
    }
  }

  /** `m` is the better match: a higher score, or the same and an earlier or equal title. */
  ghost predicate NoWorse(m: Match, n: Match) {
    m.score > n.score || (m.score == n.score && (m.title == n.title || exists k: nat :: SmallerAt(m.title, n.title, k)))
  }

  lemma RanksIff(m: Match, n: Match)
    ensures Ranks(m, n) <==> NoWorse(m, n)
  {
    Keymap.LessTotal(m.title, n.title);
    LessIff(m.title, n.title);
  }

  // ------------------------------------------------------------ what is shown

  /** The matches of one score and title, in order. */
  function Alike(matches: seq<Match>, score: int, title: string): seq<Match> {
    if matches == [] then []
    else
      var last := matches[|matches| - 1];
      Alike(matches[..|matches| - 1], score, title) + if last.score == score && last.title == title then [last] else []
  }

  lemma {:induction false} InsertKeepsAlike(sorted: seq<Match>, m: Match, score: int, title: string)
    ensures Alike(InsertRanked(sorted, m), score, title)
         == Alike(sorted, score, title) + if m.score == score && m.title == title then [m] else []
  {
    if sorted == [] || Ranks(sorted[|sorted| - 1], m) {
      assert (sorted + [m])[..|sorted|] == sorted;
    } else {
      var front, last := sorted[..|sorted| - 1], sorted[|sorted| - 1];
      InsertKeepsAlike(front, m, score, title);
      var r := InsertRanked(front, m);
      assert (r + [last])[..|r|] == r;
      Keymap.LessTotal(m.title, m.title);
    }
  }

  /** Matches that tie stay in the order of the command table. */
  lemma {:induction false} TiesKeepOrder(matches: seq<Match>, score: int, title: string)
    ensures Alike(SortRanked(matches), score, title) == Alike(matches, score, title)
  {
    if matches != [] {
      var front, last := matches[..|matches| - 1], matches[|matches| - 1];
      TiesKeepOrder(front, score, title);
      InsertKeepsAlike(SortRanked(front), last, score, title);
    }
  }

  /** For a query the palette shows at most `limit` matches, better ones first, and
      none it leaves out is better than one it shows. */
  lemma BetterFirst(matches: seq<Match>, limit: nat)
    ensures var shown := Truncated(SortRanked(matches), limit);
      && (forall i, j :: 0 <= i < j < |shown| ==> NoWorse(shown[i], shown[j]))
      && (forall i, m :: 0 <= i < |shown| && m in multiset(matches) - multiset(shown) ==> NoWorse(shown[i], m))
      && multiset(shown) <= multiset(matches) && |shown| == (if |matches| < limit then |matches| else limit)
  {
    ShownAreBest(matches, limit);
    hide SortRanked, Ranks, NoWorse, Truncated;
    var shown := Truncated(SortRanked(matches), limit);
    forall i, j | 0 <= i < j < |shown|
      ensures NoWorse(shown[i], shown[j])
    {
      RanksIff(shown[i], shown[j]);
    }
    forall i, m | 0 <= i < |shown| && m in multiset(matches) - multiset(shown)
      ensures NoWorse(shown[i], m)
    {
      RanksIff(shown[i], m);
    }
  }

  // ------------------------------------------------------------ what a match is worth

  /** A letter right after the previous one is worth 8 more, at the start of a word 6
      more, and the further into the text the less, but for each 8 bytes only 1. */
  lemma WorthOf(haystack: string, i: nat, j: nat, alphanumeric: char -> bool)
    requires j < i < |haystack|
    ensures var after := Some(Offset(haystack, j));
      Points(haystack, i, after, alphanumeric) - Points(haystack, i, None, alphanumeric)
      == if i == j + 1 && Utf8Length(haystack[j]) == 1 then 8 else 0
    ensures StartsWord(haystack, i, alphanumeric) == StartsWord(haystack, j, alphanumeric) ==>
      Points(haystack, i, None, alphanumeric) <= Points(haystack, j, None, alphanumeric)
    ensures Offset(haystack, i) < Offset(haystack, j) + 8 && !alphanumeric(haystack[i - 1]) && j > 0 && alphanumeric(haystack[j - 1]) ==>
      5 <= Points(haystack, i, None, alphanumeric) - Points(haystack, j, None, alphanumeric) <= 6
    ensures Points(haystack, 0, None, alphanumeric) == 16
  {
    AdjacentIff(haystack, j, i);
    OffsetsGrow(haystack, j, i);
  }

  /** The title decides where it matches at all; the id is only a second chance. */
  lemma TitleDecides(query: string, c: Command, lower: string -> string, alphanumeric: char -> bool)
    requires query != "" && lower(query) != ""
    ensures var m := MatchOf(query, c, lower, alphanumeric);
      && (m.Some? ==> m.value.command == c.command && m.value.title == c.title)
      && ((exists at: seq<nat> :: Embeds(lower(query), lower(c.title), at)) ==>
            m.Some? && Some(m.value.score) == ScoreOf(lower(query), lower(c.title), alphanumeric))
      && ((forall at: seq<nat> :: !Embeds(lower(query), lower(c.title), at)) && m.Some? ==>
            Some(m.value.score) == ScoreOf(lower(query), lower(c.id), alphanumeric))
  {
    SubsequenceIff(lower(query), lower(c.title));
    hide Embeds;
  }

  function Indices(from: nat, count: nat): seq<nat>
    decreases count
  {
    if count == 0 then [] else [from] + Indices(from + 1, count - 1)
  }

  lemma {:induction false} LeftmostOfSelf(text: string, i: nat)
    requires i <= |text|
    ensures Leftmost(text[i..], text, i) == Some(Indices(i, |text| - i))
    ensures var at := Indices(i, |text| - i); forall k :: 0 <= k < |at| ==> at[k] < |text|
    decreases |text| - i
  {
    if i < |text| {
      assert text[i..][1..] == text[i + 1..];
      LeftmostOfSelf(text, i + 1);
    }
  }

  /** A text that is the query itself gains 20 over the worth of its letters, taken
      one by one. */
  lemma ExactMatchGains(text: string, alphanumeric: char -> bool)
    requires text != ""
    ensures var at := Indices(0, |text|); forall k :: 0 <= k < |at| ==> at[k] < |text|
    ensures ScoreOf(text, text, alphanumeric) == Some(Total(text, Indices(0, |text|), alphanumeric) + 20)
  {
    hide Leftmost, Total;
    LeftmostOfSelf(text, 0);
    assert text[0..] == text;
  }
}
