/** String operations of the Rust standard library that several modules use. */
module Text {
  import opened Common

  /** The Unicode White_Space property. */
  predicate Whitespace(c: char) {
    var n := c as int;
    9 <= n <= 13 || n == 0x20 || n == 0x85 || n == 0xa0 || n == 0x1680 || 0x2000 <= n <= 0x200a
    || n == 0x2028 || n == 0x2029 || n == 0x202f || n == 0x205f || n == 0x3000
  }

  function TrimStart(s: string): (r: string)
    ensures r == "" || !Whitespace(r[0])
  {
    if s != "" && Whitespace(s[0]) then TrimStart(s[1..]) else s
  }

  function TrimEnd(s: string): (r: string)
    ensures r <= s && (r == "" || !Whitespace(r[|r| - 1]))
  {
    if s != "" && Whitespace(s[|s| - 1]) then TrimEnd(s[..|s| - 1]) else s
  }

  function Trim(s: string): string {
    TrimEnd(TrimStart(s))
  }

  /** Only blanks, or nothing at all. */
  predicate AllWhitespace(title: string) {
    forall i :: 0 <= i < |title| ==> Whitespace(title[i])
  }

  lemma {:induction false} StartsBlank(s: string)
    ensures TrimStart(s) == "" <==> AllWhitespace(s)
  {
    if s != "" && Whitespace(s[0]) {
      StartsBlank(s[1..]);
      assert forall i :: 0 < i < |s| ==> s[i] == s[1..][i - 1];
    }
  }

  lemma {:induction false} EndsBlank(s: string)
    requires s != "" && !Whitespace(s[0])
    ensures TrimEnd(s) != ""
  {
    if Whitespace(s[|s| - 1]) {
      EndsBlank(s[..|s| - 1]);
    }
  }

  lemma TrimsToNothingIff(s: string)
    ensures Trim(s) == "" <==> AllWhitespace(s)
  {
    StartsBlank(s);
    if TrimStart(s) != "" {
      EndsBlank(TrimStart(s));
    }
  }

  predicate EndsWith(s: string, suffix: string) {
    |suffix| <= |s| && s[|s| - |suffix|..] == suffix
  }

  /** The first position of `c`, or the length when there is none. */
  function Find(s: string, c: char): (i: nat)
    ensures i <= |s| && (i < |s| ==> s[i] == c)
    ensures forall j :: 0 <= j < i ==> s[j] != c
  {
    if s == "" || s[0] == c then 0 else 1 + Find(s[1..], c)
  }

  /** The last position of `c`, if any. */
  function FindLast(s: string, c: char): (i: Option<nat>)
    ensures i.Some? ==> i.value < |s| && s[i.value] == c && forall j :: i.value < j < |s| ==> s[j] != c
    ensures i.None? <==> c !in s
  {
    if s == "" then None
    else if s[|s| - 1] == c then Some(|s| - 1)
    else
      assert s == s[..|s| - 1] + [s[|s| - 1]];
      FindLast(s[..|s| - 1], c)
  }

  predicate AsciiAlphanumeric(c: char) {
    '0' <= c <= '9' || 'A' <= c <= 'Z' || 'a' <= c <= 'z'
  }

  lemma FindLastIs(s: string, c: char, i: nat)
    requires i < |s| && s[i] == c && forall j :: i < j < |s| ==> s[j] != c
    ensures FindLast(s, c) == Some(i)
  {
    assert s[i] in s;
  }
}
