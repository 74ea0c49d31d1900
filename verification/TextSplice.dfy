/** Python's `str.count` and `str.replace`, and when a replacement is one splice. */
module TextSplice {

  function Count(text: string, pattern: string): nat
    requires pattern != ""
  {
    if |text| < |pattern| then 0
    else if pattern <= text then 1 + Count(text[|pattern|..], pattern)
    else Count(text[1..], pattern)
  }

  function Replace(text: string, pattern: string, put: string): string
    requires pattern != ""
  {
    if |text| < |pattern| then text
    else if pattern <= text then put + Replace(text[|pattern|..], pattern, put)
    else [text[0]] + Replace(text[1..], pattern, put)
  }

  predicate OccursAt(text: string, pattern: string, i: int) {
    0 <= i && i + |pattern| <= |text| && text[i..i + |pattern|] == pattern
  }

  ghost predicate OnlyAt(text: string, pattern: string, i: int) {
    OccursAt(text, pattern, i) && forall j :: OccursAt(text, pattern, j) ==> j == i
  }

  lemma Shift(text: string, pattern: string, i: int, n: nat)
    requires OccursAt(text, pattern, i) && n <= i
    ensures OccursAt(text[n..], pattern, i - n)
  {
    assert text[n..][i - n..i - n + |pattern|] == text[i..i + |pattern|];
  }

  lemma {:induction false} Occurrence(text: string, pattern: string, i: int)
    requires pattern != "" && OccursAt(text, pattern, i)
    ensures Count(text, pattern) >= 1
    decreases |text|
  {
    if !(pattern <= text) {
      assert text[0..|pattern|] == text[..|pattern|];
      Shift(text, pattern, i, 1);
      Occurrence(text[1..], pattern, i - 1);
    }
  }

  lemma {:induction false} TwoOccurrences(text: string, pattern: string, i: int, j: int)
    requires pattern != "" && OccursAt(text, pattern, i) && OccursAt(text, pattern, j) && i + |pattern| <= j
    ensures Count(text, pattern) >= 2
    decreases |text|
  {
    if pattern <= text {
      Shift(text, pattern, j, |pattern|);
      Occurrence(text[|pattern|..], pattern, j - |pattern|);
    } else {
      assert text[0..|pattern|] == text[..|pattern|];
      Shift(text, pattern, i, 1);
      Shift(text, pattern, j, 1);
      TwoOccurrences(text[1..], pattern, i - 1, j - 1);
    }
  }

  /** A non-overlapping count of one means one occurrence, once overlaps with it
      are excluded. */
  lemma CountOne(text: string, pattern: string, i: int)
    requires pattern != "" && Count(text, pattern) == 1 && OccursAt(text, pattern, i)
    requires forall j :: OccursAt(text, pattern, j) && j < i + |pattern| && i < j + |pattern| ==> j == i
    ensures OnlyAt(text, pattern, i)
  {
    forall j | OccursAt(text, pattern, j)
      ensures j == i
    {
      if j + |pattern| <= i {
        TwoOccurrences(text, pattern, j, i);
      } else if i + |pattern| <= j {
        TwoOccurrences(text, pattern, i, j);
      }
    }
  }

  lemma NoneInTail(text: string, pattern: string)
    requires text != "" && forall j :: !OccursAt(text, pattern, j)
    ensures forall j :: !OccursAt(text[1..], pattern, j)
  {
    forall j ensures !OccursAt(text[1..], pattern, j) {
      if OccursAt(text[1..], pattern, j) {
        assert text[1..][j..j + |pattern|] == text[j + 1..j + 1 + |pattern|];
        assert OccursAt(text, pattern, j + 1);
      }
    }
  }

  lemma {:induction false} NoneCountZero(text: string, pattern: string)
    requires pattern != "" && forall j :: !OccursAt(text, pattern, j)
    ensures Count(text, pattern) == 0
    decreases |text|
  {
    if |text| >= |pattern| {
      assert !OccursAt(text, pattern, 0);
      NoneInTail(text, pattern);
      NoneCountZero(text[1..], pattern);
    }
  }

  lemma {:induction false} NoneReplaced(text: string, pattern: string, put: string)
    requires pattern != "" && forall j :: !OccursAt(text, pattern, j)
    ensures Replace(text, pattern, put) == text
    decreases |text|
  {
    if |text| >= |pattern| {
      assert !OccursAt(text, pattern, 0);
      NoneInTail(text, pattern);
      NoneReplaced(text[1..], pattern, put);
    }
  }

  /** With a single occurrence, replacing is splicing there. */
  lemma {:induction false} ReplaceOnly(before: string, pattern: string, after: string, put: string)
    requires pattern != "" && OnlyAt(before + pattern + after, pattern, |before|)
    ensures Replace(before + pattern + after, pattern, put) == before + put + after
    decreases |before|
  {
    var text := before + pattern + after;
    if before == "" {
      assert text == pattern + after && put + after == before + put + after;
      NoneBehind(pattern, after);
      NoneReplaced(after, pattern, put);
    } else {
      assert text[..|pattern|] == pattern ==> OccursAt(text, pattern, 0);
      assert text == [before[0]] + (before[1..] + pattern + after);
      OnlyInTail(before, pattern, after);
      ReplaceOnly(before[1..], pattern, after, put);
      assert before + put + after == [before[0]] + (before[1..] + put + after);
    }
  }

  lemma NoneBehind(pattern: string, after: string)
    requires pattern != "" && OnlyAt(pattern + after, pattern, 0)
    ensures forall j :: !OccursAt(after, pattern, j)
  {
    var n := |pattern|;
    forall j ensures !OccursAt(after, pattern, j) {
      if OccursAt(after, pattern, j) {
        assert (pattern + after)[n + j..n + j + n] == after[j..j + n];
        assert OccursAt(pattern + after, pattern, n + j);
      }
    }
  }

  lemma OnlyInTail(before: string, pattern: string, after: string)
    requires before != "" && OnlyAt(before + pattern + after, pattern, |before|)
    ensures OnlyAt(before[1..] + pattern + after, pattern, |before| - 1)
  {
    var text, rest, n := before + pattern + after, before[1..] + pattern + after, |pattern|;
    assert text == [before[0]] + rest;
    assert rest[|before| - 1..|before| - 1 + n] == pattern;
    forall j | OccursAt(rest, pattern, j)
      ensures j == |before| - 1
    {
      assert text[j + 1..j + 1 + n] == rest[j..j + n];
      assert OccursAt(text, pattern, j + 1);
    }
  }

  /** The partner of `CountOne`: a single occurrence is counted once. */
  lemma {:induction false} CountOnly(text: string, pattern: string, i: int)
    requires pattern != "" && OnlyAt(text, pattern, i)
    ensures Count(text, pattern) == 1
    decreases |text|
  {
    if pattern <= text {
      assert OccursAt(text, pattern, 0);
      var rest := text[|pattern|..];
      assert text == pattern + rest;
      NoneBehind(pattern, rest);
      NoneCountZero(rest, pattern);
    } else {
      assert text[0..|pattern|] == text[..|pattern|];
      Shift(text, pattern, i, 1);
      forall j | OccursAt(text[1..], pattern, j)
        ensures j == i - 1
      {
        assert text[1..][j..j + |pattern|] == text[j + 1..j + 1 + |pattern|];
        assert OccursAt(text, pattern, j + 1);
      }
      CountOnly(text[1..], pattern, i - 1);
    }
  }
}
