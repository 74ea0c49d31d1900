/**
 Renewal of a signed release manifest (prepare-stable-v2-refresh.py): the two
 timestamps are spliced into the source text, which must give the same bytes as
 updating the parsed manifest and printing it again.
 */
module ManifestRefresh {
  import opened Common
  import opened CanonicalJson
  import opened TextSplice

  const PUBLISHED: string := "published_at"
  const VALID: string := "valid_until"
  const WINDOW_SECONDS: int := 7 * 24 * 60 * 60

  /** The library calls: JSON parsing, calendar time in seconds, and which
      characters beyond ASCII count as decimal digits (the first is U+0660). */
  datatype Library = Library(loads: string -> Option<Json>, instant: string -> Option<int>, wideDigit: char -> bool)

  datatype RenewError = BadRequest | NotJson | NotObject | NotCanonical | BadField | BadTime | BadWindow | NotUnique

  // ---------------------------------------------------------------- timestamps

  predicate Digit(lib: Library, c: char) {
    '0' <= c <= '9' || (c as int >= 0x660 && lib.wideDigit(c))
  }

  const TIME_SHAPE: string := "dddd-dd-ddTdd:dd:ddZ"

  predicate TimeShape(lib: Library, s: string) {
    |s| == 20
    && forall i :: 0 <= i < 20 ==> if TIME_SHAPE[i] == 'd' then Digit(lib, s[i]) else s[i] == TIME_SHAPE[i]
  }

  function ParseTime(lib: Library, s: string): Option<int> {
    if TimeShape(lib, s) then lib.instant(s) else None
  }

  predicate Ascii(s: string) {
    forall i :: 0 <= i < |s| ==> s[i] as int < 0x80
  }

  // ------------------------------------------------------------------- renewal

  /** `require_string`. */
  function StringField(fields: seq<Field>, key: string): Option<string> {
    var i := IndexOf(fields, key);
    if i < |fields| && fields[i].value.Str? && fields[i].value.text != "" then Some(fields[i].value.text) else None
  }

  function Renewed(fields: seq<Field>, published: string, valid: string): seq<Field>
    requires StringField(fields, PUBLISHED).Some? && StringField(fields, VALID).Some?
  {
    var at, until := IndexOf(fields, PUBLISHED), IndexOf(fields, VALID);
    fields[at := Field(PUBLISHED, Str(published))][until := Field(VALID, Str(valid))]
  }

  function TimeField(key: string, value: string): string {
    QuoteAscii(key) + ": " + QuoteAscii(value)
  }

  /** The renewed bytes of one manifest, as text. */
  function Renew(lib: Library, source: string, published: string, valid: string): Result<string, RenewError> {
    var from, to := ParseTime(lib, published), ParseTime(lib, valid);
    if from.None? || to.None? || to.value - from.value != WINDOW_SECONDS then Err(BadRequest)
    else match lib.loads(source)
      case None => Err(NotJson)
      case Some(manifest) =>
        if !manifest.Obj? then Err(NotObject)
        else if source != Dumps(manifest) then Err(NotCanonical)
        else
          var oldPublished, oldValid := StringField(manifest.fields, PUBLISHED), StringField(manifest.fields, VALID);
          if oldPublished.None? || oldValid.None? then Err(BadField)
          else
            var opens, closes := ParseTime(lib, oldPublished.value), ParseTime(lib, oldValid.value);
            if opens.None? || closes.None? then Err(BadTime)
            else if closes.value <= opens.value then Err(BadWindow)
            else
              var publishedField := TimeField(PUBLISHED, oldPublished.value);
              var validField := TimeField(VALID, oldValid.value);
              if Count(source, publishedField) != 1 || Count(source, validField) != 1 then Err(NotUnique)
              else
                Ok(Replace(Replace(source, publishedField, TimeField(PUBLISHED, published)),
                           validField, TimeField(VALID, valid)))
  }

  // --------------------------------------------------------- shape of a field

  /** The text of a time field between its quotes and separators: names are
      bare words, values start with a digit or an escape. */
  predicate NameOk(name: string) {
    |name| >= 1 && '\"' !in name && ' ' !in name && (name[0] == 'p' || name[0] == 'v')
  }

  predicate ValueOk(value: string) {
    |value| >= 1 && '\"' !in value && ' ' !in value && value[0] != 'p' && value[0] != 'v'
  }

  function Pair(name: string, value: string): string {
    "\"" + name + "\": \"" + value + "\""
  }

  /** The four quotes of a pair, and what stands next to them. */
  lemma PairQuotes(name: string, value: string, d: int)
    requires NameOk(name) && ValueOk(value)
    requires 0 <= d < |Pair(name, value)| && Pair(name, value)[d] == '\"'
    ensures d == 0 || d == |name| + 1 || d == |name| + 4 || d == |Pair(name, value)| - 1
    ensures d == |name| + 1 ==> Pair(name, value)[d + 1] == ':' && Pair(name, value)[d - 1] != ' '
    ensures d == |name| + 4 ==>
      Pair(name, value)[d - 2] == ':' && Pair(name, value)[d + 1] == value[0]
    ensures d == |Pair(name, value)| - 1 ==> Pair(name, value)[d - 1] != ' '
    ensures Pair(name, value)[1] == name[0] && |Pair(name, value)| == |name| + |value| + 6
  {
    hide Pair;
    var p, n := Pair(name, value), |name|;
    PairChars(name, value);
    assert p[n] == name[n - 1] && p[|p| - 2] == value[|value| - 1];
  }

  lemma PairChars(name: string, value: string)
    ensures var p, n := Pair(name, value), |name|;
      && |p| == n + |value| + 6
      && p[0] == '\"' && p[n + 1] == '\"' && p[n + 2] == ':' && p[n + 3] == ' ' && p[n + 4] == '\"' && p[|p| - 1] == '\"'
      && (forall k :: 1 <= k <= n ==> p[k] == name[k - 1])
      && (forall k :: n + 5 <= k < |p| - 1 ==> p[k] == value[k - n - 5])
  {
  }

  predicate InLine(before: string, after: string) {
    EndsIndented(before) && after != "" && (after[0] == ',' || after[0] == '\n')
  }

  /** No later quote of a pair follows two spaces. */
  lemma SpacesBehind(name: string, value: string, d: int)
    requires NameOk(name) && ValueOk(value) && 2 <= d < |Pair(name, value)| && Pair(name, value)[d] == '\"'
    ensures Pair(name, value)[d - 1] != ' ' || Pair(name, value)[d - 2] != ' '
  {
    PairQuotes(name, value, d);
  }

  /** No later quote of a pair is followed by the first letter of a name. */
  lemma LetterAhead(name: string, value: string, d: int)
    requires NameOk(name) && ValueOk(value) && 0 < d < |Pair(name, value)| - 1 && Pair(name, value)[d] == '\"'
    ensures Pair(name, value)[d + 1] != 'p' && Pair(name, value)[d + 1] != 'v'
  {
    PairQuotes(name, value, d);
  }

  /** A pair standing in its indented line cannot be entered half-way by another
      pair: an overlapping occurrence is one of the same name in the same place. */
  lemma NoOverlap(before: string, name: string, value: string, after: string, other: string, otherValue: string, j: int)
    requires NameOk(name) && ValueOk(value) && NameOk(other) && ValueOk(otherValue) && InLine(before, after)
    requires OccursAt(before + Pair(name, value) + after, Pair(other, otherValue), j)
    requires j < |before| + |Pair(name, value)| && |before| < j + |Pair(other, otherValue)|
    ensures j == |before| && other[0] == name[0]
  {
    var x, q, a := Pair(name, value), Pair(other, otherValue), |before|;
    var text := before + x + after;
    PairQuotes(name, value, 0);
    assert forall k :: 0 <= k < |q| ==> q[k] == text[j..j + |q|][k];
    assert q[1] == other[0] && q[1] == text[j + 1] by { PairQuotes(other, otherValue, 0); }
    if j < a {
      assert a - j >= 2 by { assert q[a - j] == x[0]; }
      assert q[a - j] == text[a] == x[0] && q[a - j - 1] == text[a - 1] && q[a - j - 2] == text[a - 2];
      assert text[a - 1] == before[a - 1] && text[a - 2] == before[a - 2];
      SpacesBehind(other, otherValue, a - j);
    } else if j > a {
      assert x[j - a] == text[j] == q[0];
      if j - a < |x| - 1 {
        assert text[j + 1] == x[j - a + 1];
        LetterAhead(name, value, j - a);
      }
    } else {
      assert text[j + 1] == x[1];
    }
  }

  /** One occurrence that stands in its line is the only one when the count is one. */
  lemma UniquePair(before: string, name: string, value: string, after: string)
    requires NameOk(name) && ValueOk(value)
    requires InLine(before, after)
    requires Count(before + Pair(name, value) + after, Pair(name, value)) == 1
    ensures OnlyAt(before + Pair(name, value) + after, Pair(name, value), |before|)
  {
    var x := Pair(name, value);
    var text := before + x + after;
    assert text[|before|..|before| + |x|] == x;
    forall j | OccursAt(text, x, j) && j < |before| + |x| && |before| < j + |x|
      ensures j == |before|
    {
      NoOverlap(before, name, value, after, name, value, j);
    }
    CountOne(text, x, |before|);
  }

  /** Replacing one pair neither creates nor destroys an occurrence of another:
      it only moves those behind it. */
  lemma OthersStay(
    before: string, name: string, value: string, newValue: string, after: string, other: string, otherValue: string, j: int)
    requires NameOk(name) && ValueOk(value) && ValueOk(newValue) && NameOk(other) && ValueOk(otherValue)
    requires other[0] != name[0]
    requires InLine(before, after)
    requires OccursAt(before + Pair(name, newValue) + after, Pair(other, otherValue), j)
    ensures var shift := if j < |before| then 0 else |newValue| - |value|;
      && OccursAt(before + Pair(name, value) + after, Pair(other, otherValue), j - shift)
      && (j < |before| <==> j - shift < |before|)
  {
    var x, y, q := Pair(name, value), Pair(name, newValue), Pair(other, otherValue);
    var old_, new_ := before + x + after, before + y + after;
    if j < |before| + |y| && |before| < j + |q| {
      NoOverlap(before, name, newValue, after, other, otherValue, j);
    } else if j < |before| {
      assert old_[j..j + |q|] == before[j..j + |q|] == new_[j..j + |q|];
    } else {
      var s := |newValue| - |value|;
      assert |y| == |x| + s;
      var k := j - |before| - |y|;
      assert new_[j..j + |q|] == after[k..k + |q|];
      assert old_[j - s..j - s + |q|] == after[k..k + |q|];
    }
  }

  // ------------------------------------------------------- escaped timestamps

  predicate Plain(c: char) {
    0x20 <= c as int < 0x7f && c != '\"' && c != '\\'
  }

  lemma {:induction false} PlainUnescaped(s: string)
    requires forall i :: 0 <= i < |s| ==> Plain(s[i])
    ensures EscapedAscii(s) == s && EscapedRaw(s) == s
  {
    if s != "" {
      assert Plain(s[0]);
      PlainUnescaped(s[1..]);
    }
  }

  lemma NamesPlain()
    ensures EscapedAscii(PUBLISHED) == EscapedRaw(PUBLISHED) == PUBLISHED
    ensures EscapedAscii(VALID) == EscapedRaw(VALID) == VALID
    ensures NameOk(PUBLISHED) && NameOk(VALID)
  {
    hide EscapedAscii; hide EscapedRaw;
    PlainUnescaped(PUBLISHED);
    PlainUnescaped(VALID);
  }

  /** What may stand in a timestamp: plain characters or digits beyond ASCII. */
  predicate TimeChar(c: char) {
    (Plain(c) && c != ' ' && c != 'p' && c != 'v') || c as int >= 0x660
  }

  lemma TimeShapeChars(lib: Library, s: string)
    requires TimeShape(lib, s)
    ensures |s| == 20 && forall i :: 0 <= i < |s| ==> TimeChar(s[i])
  {
  }

  lemma EscapeTimeChar(c: char)
    requires TimeChar(c)
    ensures var e := EscapeAscii(c);
      && |e| >= 1 && '\"' !in e && ' ' !in e && e[0] != 'p' && e[0] != 'v'
      && |e| >= |EscapeRaw(c)| == 1
      && (c as int >= 0x80 ==> |e| >= 6 && e[0] == '\\' && e[1] == 'u' && !(e[2] == '0' && e[3] == '0'))
      && (c as int < 0x80 ==> e == [c] == EscapeRaw(c))
  {
    hide HexDigit; hide UnicodeEscape;
    var n := c as int;
    if 0x660 <= n < 0x10000 {
      EscapedUnit(n);
    } else if n >= 0x10000 {
      EscapedUnit(0xd800 + (n - 0x10000) / 0x400);
      EscapedUnit(0xdc00 + (n - 0x10000) % 0x400);
    }
  }

  lemma HexIsPlain(n: nat)
    requires n < 16
    ensures HexDigit(n) != '\"' && HexDigit(n) != ' '
  {
  }

  /** A code unit from U+0100 on does not escape to two leading zeros. */
  lemma HexPair(n: nat)
    requires 0x100 <= n < 0x10000
    ensures !(HexDigit(n / 0x1000) == '0' && HexDigit(n / 0x100 % 16) == '0')
  {
    assert n / 0x1000 != 0 || n / 0x100 % 16 != 0;
  }

  lemma EscapedUnit(unit: nat)
    requires 0x100 <= unit < 0x10000
    ensures var e := UnicodeEscape(unit);
      && '\"' !in e && ' ' !in e && e[0] == '\\' && e[1] == 'u' && !(e[2] == '0' && e[3] == '0')
  {
    hide HexDigit;
    HexPair(unit);
    HexIsPlain(unit / 0x1000);
    HexIsPlain(unit / 0x100 % 16);
    HexIsPlain(unit / 16 % 16);
    HexIsPlain(unit % 16);
  }

  predicate TimeText(s: string) {
    s != "" && forall i :: 0 <= i < |s| ==> TimeChar(s[i])
  }

  lemma {:induction false} EscapedTime(s: string)
    requires TimeText(s)
    ensures ValueOk(EscapedAscii(s)) && |EscapedAscii(s)| >= |EscapedRaw(s)| == |s|
    ensures Ascii(s) ==> EscapedAscii(s) == EscapedRaw(s) == s
    ensures !Ascii(s) ==> |EscapedAscii(s)| > |EscapedRaw(s)|
  {
    hide EscapeAscii; hide EscapeRaw;
    EscapeTimeChar(s[0]);
    if |s| > 1 {
      EscapedTime(s[1..]);
      assert s == [s[0]] + s[1..];
    } else {
      assert s[1..] == "";
    }
  }

  /** A digit beyond ASCII leaves an escape that no clean text contains there. */
  lemma {:induction false} WideEscape(s: string) returns (p: nat)
    requires TimeText(s) && !Ascii(s)
    ensures var e := EscapedAscii(s);
      && p + 3 < |e| && e[p] == '\\' && e[p + 1] == 'u' && !(e[p + 2] == '0' && e[p + 3] == '0')
      && (p == 0 || e[p - 1] != '\\')
  {
    hide EscapeAscii; hide EscapeRaw;
    EscapeTimeChar(s[0]);
    if s[0] as int >= 0x80 {
      p := 0;
    } else {
      assert |s| > 1 && s == [s[0]] + s[1..];
      var rest := WideEscape(s[1..]);
      p := 1 + rest;
      assert EscapedAscii(s) == [s[0]] + EscapedAscii(s[1..]);
    }
  }

  /** If the source contains a time field at all, its timestamp is plain ASCII. */
  lemma SourceTimeAscii(source: string, name: string, old_: string)
    requires Clean(source) && TimeText(old_) && name != "" && Count(source, Pair(name, EscapedAscii(old_))) >= 1
    ensures Ascii(old_)
  {
    if !Ascii(old_) {
      var p := WideEscape(old_);
      var e, q := EscapedAscii(old_), Pair(name, EscapedAscii(old_));
      var at := |name| + 5 + p;
      assert q == ("\"" + name + "\": \"") + e + "\"";
      assert q[at] == e[p] && q[at + 1] == e[p + 1] && q[at + 2] == e[p + 2] && q[at + 3] == e[p + 3];
      assert q[at - 1] == if p == 0 then '\"' else e[p - 1];
      NoWideEscape(source, q, at);
      NoneCountZero(source, q);
    }
  }

  lemma NoWideEscape(text: string, q: string, at: nat)
    requires Clean(text) && 1 <= at && at + 3 < |q|
    requires q[at - 1] != '\\' && q[at] == '\\' && q[at + 1] == 'u' && !(q[at + 2] == '0' && q[at + 3] == '0')
    ensures forall j :: !OccursAt(text, q, j)
  {
    forall j ensures !OccursAt(text, q, j) {
      if OccursAt(text, q, j) {
        assert forall k :: 0 <= k < |q| ==> q[k] == text[j..j + |q|][k];
        assert text[j + at] == q[at] && text[j + at + 1] == q[at + 1] && text[j + at - 1] == q[at - 1];
        assert text[j + at + 2] == q[at + 2] && text[j + at + 3] == q[at + 3];
        CleanEscape(text, j + at);
      }
    }
  }

  // ---------------------------------------------------- splicing is reprinting

  /** A field whose printed value is the given text, quotes included. */
  function Literal(name: string, value: string): Field {
    Field(name, Number("\"" + value + "\""))
  }

  lemma LiteralText(name: string, value: string)
    requires EscapedRaw(name) == name
    ensures FieldText(Literal(name, value), 1) == Pair(name, value)
    ensures FieldText(Field(name, Str(value)), 1) == Pair(name, EscapedRaw(value))
  {
    hide EscapedRaw;
    PairText(name, value);
    PairText(name, EscapedRaw(value));
  }

  lemma PairText(name: string, value: string)
    ensures ("\"" + name + "\"") + ": " + ("\"" + value + "\"") == Pair(name, value)
  {
  }

  /** Field `i` prints as the pair `name`, `value`. */
  predicate PrintsAs(fields: seq<Field>, i: nat, name: string, value: string) {
    i < |fields| && FieldText(fields[i], 1) == Pair(name, value)
  }

  function Position(fields: seq<Field>, i: nat): nat
    requires i < |fields|
  {
    1 + |Before(fields, i)|
  }

  lemma FieldOccurs(fields: seq<Field>, i: nat, name: string, value: string)
    requires PrintsAs(fields, i, name, value)
    ensures OccursAt(Dumps(Obj(fields)), Pair(name, value), Position(fields, i))
  {
    SplitDumps(fields, i);
    var a, x := "{" + Before(fields, i), Pair(name, value);
    var b := After(fields, i) + "\n}\n";
    assert (a + x + b)[|a|..|a| + |x|] == x;
  }

  lemma FieldUnique(fields: seq<Field>, i: nat, name: string, value: string)
    requires PrintsAs(fields, i, name, value) && NameOk(name) && ValueOk(value)
    requires Count(Dumps(Obj(fields)), Pair(name, value)) == 1
    ensures OnlyAt(Dumps(Obj(fields)), Pair(name, value), Position(fields, i))
  {
    SplitDumps(fields, i);
    FieldSurroundings(fields, i);
    UniquePair("{" + Before(fields, i), name, value, After(fields, i) + "\n}\n");
  }

  lemma SpliceOne(fields: seq<Field>, i: nat, name: string, value: string, newValue: string)
    requires PrintsAs(fields, i, name, value) && EscapedRaw(name) == name
    requires OnlyAt(Dumps(Obj(fields)), Pair(name, value), Position(fields, i))
    ensures Replace(Dumps(Obj(fields)), Pair(name, value), Pair(name, newValue))
         == Dumps(Obj(fields[i := Literal(name, newValue)]))
  {
    var new_ := fields[i := Literal(name, newValue)];
    SplitDumps(fields, i);
    SplitDumps(new_, i);
    BeforeAfterUpdate(fields, i, Literal(name, newValue));
    LiteralText(name, newValue);
    ReplaceOnly("{" + Before(fields, i), Pair(name, value), After(fields, i) + "\n}\n", Pair(name, newValue));
  }

  /** After the first splice the second field is still where it was, and nowhere else. */
  lemma StillUnique(
    fields: seq<Field>, i: nat, name: string, value: string, newValue: string, k: nat, other: string, otherValue: string)
    requires PrintsAs(fields, i, name, value) && PrintsAs(fields, k, other, otherValue) && k != i
    requires NameOk(name) && ValueOk(value) && ValueOk(newValue) && NameOk(other) && ValueOk(otherValue)
    requires name[0] != other[0] && EscapedRaw(name) == name
    requires OnlyAt(Dumps(Obj(fields)), Pair(other, otherValue), Position(fields, k))
    ensures var new_ := fields[i := Literal(name, newValue)];
      OnlyAt(Dumps(Obj(new_)), Pair(other, otherValue), Position(new_, k))
  {
    var new_ := fields[i := Literal(name, newValue)];
    var a, b := "{" + Before(fields, i), After(fields, i) + "\n}\n";
    SplitDumps(fields, i);
    SplitDumps(new_, i);
    BeforeAfterUpdate(fields, i, Literal(name, newValue));
    LiteralText(name, newValue);
    FieldSurroundings(fields, i);
    FieldOccurs(new_, k, other, otherValue);
    forall j | OccursAt(Dumps(Obj(new_)), Pair(other, otherValue), j)
      ensures j == Position(new_, k)
    {
      OthersStay(a, name, value, newValue, b, other, otherValue, j);
      OthersStay(a, name, value, newValue, b, other, otherValue, Position(new_, k));
    }
  }

  /** Both splices at once, on any manifest whose two fields print once each. */
  lemma SpliceBoth(
    fields: seq<Field>, i: nat, name: string, value: string, newValue: string,
    k: nat, other: string, otherValue: string, newOther: string)
    requires PrintsAs(fields, i, name, value) && PrintsAs(fields, k, other, otherValue) && k != i
    requires NameOk(name) && ValueOk(value) && ValueOk(newValue) && NameOk(other) && ValueOk(otherValue)
    requires name[0] != other[0] && EscapedRaw(name) == name && EscapedRaw(other) == other
    requires Count(Dumps(Obj(fields)), Pair(name, value)) == 1
    requires Count(Dumps(Obj(fields)), Pair(other, otherValue)) == 1
    ensures Replace(Replace(Dumps(Obj(fields)), Pair(name, value), Pair(name, newValue)),
                    Pair(other, otherValue), Pair(other, newOther))
         == Dumps(Obj(fields[i := Literal(name, newValue)][k := Literal(other, newOther)]))
  {
    FieldUnique(fields, i, name, value);
    FieldUnique(fields, k, other, otherValue);
    SpliceOne(fields, i, name, value, newValue);
    StillUnique(fields, i, name, value, newValue, k, other, otherValue);
    SpliceOne(fields[i := Literal(name, newValue)], k, other, otherValue, newOther);
  }

  /** The length of the file moves with the printed length of one field, and its
      text with the printed text. */
  lemma SameTextSameFile(fields: seq<Field>, i: nat, f: Field, g: Field)
    requires i < |fields|
    ensures |Dumps(Obj(fields[i := f]))| - |FieldText(f, 1)| == |Dumps(Obj(fields[i := g]))| - |FieldText(g, 1)|
    ensures FieldText(f, 1) == FieldText(g, 1) ==> Dumps(Obj(fields[i := f])) == Dumps(Obj(fields[i := g]))
  {
    SplitDumps(fields[i := f], i);
    SplitDumps(fields[i := g], i);
    BeforeAfterUpdate(fields, i, f);
    BeforeAfterUpdate(fields, i, g);
    hide FieldText; hide Dumps;
  }

  // ------------------------------------------------------------ main theorems

  /** The manifest a source text stands for, with both timestamps present. */
  ghost predicate Renewable(lib: Library, source: string, fields: seq<Field>) {
    && lib.loads(source) == Some(Obj(fields)) && source == Dumps(Obj(fields)) && LiteralsOk(Obj(fields))
    && StringField(fields, PUBLISHED).Some? && StringField(fields, VALID).Some?
    && TimeShape(lib, OldPublished(fields)) && TimeShape(lib, OldValid(fields))
  }

  function OldPublished(fields: seq<Field>): string {
    StringField(fields, PUBLISHED).GetOr("")
  }

  function OldValid(fields: seq<Field>): string {
    StringField(fields, VALID).GetOr("")
  }

  lemma TimeShapeText(lib: Library, s: string)
    requires TimeShape(lib, s)
    ensures TimeText(s) && ValueOk(EscapedAscii(s))
  {
    TimeShapeChars(lib, s);
    EscapedTime(s);
  }

  /** A time field that is found in a canonical source is plain ASCII. */
  lemma OldTimeAscii(lib: Library, source: string, fields: seq<Field>, name: string, old_: string)
    requires source == Dumps(Obj(fields)) && LiteralsOk(Obj(fields))
    requires name == PUBLISHED || name == VALID
    requires TimeShape(lib, old_) && Count(source, TimeField(name, old_)) >= 1
    ensures Ascii(old_)
  {
    hide Dumps, LiteralsOk, Count, Clean, TimeField, EscapedAscii, EscapedRaw, TimeShape, TimeText, Pair, ValueOk, Ascii;
    NamesPlain();
    TimeShapeText(lib, old_);
    TimeFieldText(name, old_);
    DumpsClean(Obj(fields));
    SourceTimeAscii(source, name, old_);
  }

  /** A time field of the source prints as its own splice pattern exactly when
      its timestamp is ASCII, which a successful renewal guarantees. */
  lemma OldFieldPrints(lib: Library, source: string, fields: seq<Field>, name: string, old_: string)
    requires source == Dumps(Obj(fields)) && LiteralsOk(Obj(fields))
    requires name == PUBLISHED || name == VALID
    requires StringField(fields, name) == Some(old_) && TimeShape(lib, old_)
    requires Count(source, TimeField(name, old_)) >= 1
    ensures PrintsAs(fields, IndexOf(fields, name), name, EscapedAscii(old_))
  {
    hide Dumps, LiteralsOk, Count, TimeField, EscapedAscii, EscapedRaw, TimeShape, TimeText, Pair, ValueOk, Ascii, FieldText,
         IndexOf;
    NamesPlain();
    OldTimeAscii(lib, source, fields, name, old_);
    TimeShapeText(lib, old_);
    EscapedTime(old_);
    LiteralText(name, old_);
  }

  lemma TimeFieldText(name: string, value: string)
    requires EscapedAscii(name) == name
    ensures TimeField(name, value) == Pair(name, EscapedAscii(value))
  {
    hide EscapedAscii;
    PairText(name, EscapedAscii(value));
  }

  /** What success says about the guards passed on the way. */
  lemma RenewGuards(lib: Library, source: string, fields: seq<Field>, published: string, valid: string)
    requires Renewable(lib, source, fields) && Renew(lib, source, published, valid).Ok?
    ensures TimeShape(lib, published) && TimeShape(lib, valid)
    ensures var p, q := TimeField(PUBLISHED, OldPublished(fields)), TimeField(VALID, OldValid(fields));
      && Count(source, p) == 1 && Count(source, q) == 1
      && Renew(lib, source, published, valid).value
         == Replace(Replace(source, p, TimeField(PUBLISHED, published)), q, TimeField(VALID, valid))
  {
    hide Count; hide Replace; hide TimeField; hide Dumps; hide TimeShape; hide StringField; hide LiteralsOk;
  }

  /** What a successful renewal writes: the source manifest with two values
      overwritten, each by its ASCII-escaped form. */
  lemma RenewOutput(lib: Library, source: string, fields: seq<Field>, published: string, valid: string)
    requires Renewable(lib, source, fields) && Renew(lib, source, published, valid).Ok?
    ensures Renew(lib, source, published, valid).value
         == Dumps(Obj(fields[IndexOf(fields, PUBLISHED) := Literal(PUBLISHED, EscapedAscii(published))]
                            [IndexOf(fields, VALID) := Literal(VALID, EscapedAscii(valid))]))
  {
    RenewGuards(lib, source, fields, published, valid);
    hide Renew; hide Count; hide Replace; hide TimeField; hide Dumps; hide TimeShape; hide LiteralsOk;
    hide EscapedAscii; hide EscapedRaw; hide TimeText; hide Literal;
    NamesPlain();
    var oldP, oldV := OldPublished(fields), OldValid(fields);
    OldFieldPrints(lib, source, fields, PUBLISHED, oldP);
    OldFieldPrints(lib, source, fields, VALID, oldV);
    TimeShapeText(lib, oldP);
    TimeShapeText(lib, oldV);
    TimeShapeText(lib, published);
    TimeShapeText(lib, valid);
    TimeFieldText(PUBLISHED, oldP);
    TimeFieldText(VALID, oldV);
    TimeFieldText(PUBLISHED, published);
    TimeFieldText(VALID, valid);
    SpliceBoth(fields, IndexOf(fields, PUBLISHED), PUBLISHED, EscapedAscii(oldP), EscapedAscii(published),
               IndexOf(fields, VALID), VALID, EscapedAscii(oldV), EscapedAscii(valid));
  }

  /** The renewed text is the canonical printing of the updated manifest if and
      only if both new timestamps are ASCII. */
  lemma SpliceIsReprintIff(lib: Library, source: string, fields: seq<Field>, published: string, valid: string)
    requires Renewable(lib, source, fields) && Renew(lib, source, published, valid).Ok?
    ensures Renew(lib, source, published, valid).value == Dumps(Obj(Renewed(fields, published, valid)))
       <==> Ascii(published) && Ascii(valid)
  {
    RenewOutput(lib, source, fields, published, valid);
    RenewGuards(lib, source, fields, published, valid);
    hide Renew; hide Dumps; hide Ascii; hide Literal; hide EscapedAscii; hide TimeShape; hide LiteralsOk; hide FieldText;
    NamesPlain();
    SplicedFieldText(lib, PUBLISHED, published);
    SplicedFieldText(lib, VALID, valid);
    TwoFieldsReprint(fields, IndexOf(fields, PUBLISHED), IndexOf(fields, VALID),
                     Literal(PUBLISHED, EscapedAscii(published)), Field(PUBLISHED, Str(published)),
                     Literal(VALID, EscapedAscii(valid)), Field(VALID, Str(valid)));
  }

  /** A spliced field prints like the updated field when its timestamp is ASCII,
      and longer when it is not. */
  lemma SplicedFieldText(lib: Library, name: string, value: string)
    requires EscapedRaw(name) == name && TimeShape(lib, value)
    ensures var spliced, updated := FieldText(Literal(name, EscapedAscii(value)), 1), FieldText(Field(name, Str(value)), 1);
      if Ascii(value) then spliced == updated else |spliced| > |updated|
  {
    TimeShapeText(lib, value);
    EscapedTime(value);
    LiteralText(name, EscapedAscii(value));
    LiteralText(name, value);
  }

  lemma TwoFieldsReprint(fields: seq<Field>, i: nat, k: nat, p: Field, q: Field, r: Field, s: Field)
    requires i < |fields| && k < |fields| && i != k
    requires FieldText(p, 1) == FieldText(q, 1) || |FieldText(p, 1)| > |FieldText(q, 1)|
    requires FieldText(r, 1) == FieldText(s, 1) || |FieldText(r, 1)| > |FieldText(s, 1)|
    ensures Dumps(Obj(fields[i := p][k := r])) == Dumps(Obj(fields[i := q][k := s]))
       <==> (FieldText(p, 1) == FieldText(q, 1) && FieldText(r, 1) == FieldText(s, 1))
  {
    hide FieldText; hide Dumps;
    SameTextSameFile(fields[i := p], k, r, s);
    SameTextSameFile(fields[k := s], i, p, q);
    assert fields[i := p][k := s] == fields[k := s][i := p];
    assert fields[i := q][k := s] == fields[k := s][i := q];
  }

  /** The updated manifest differs from the source in the two timestamps only. */
  lemma OnlyTimesChange(fields: seq<Field>, published: string, valid: string)
    requires StringField(fields, PUBLISHED).Some? && StringField(fields, VALID).Some?
    requires published != "" && valid != ""
    ensures var new_ := Renewed(fields, published, valid);
      && |new_| == |fields|
      && StringField(new_, PUBLISHED) == Some(published) && StringField(new_, VALID) == Some(valid)
      && (forall j :: 0 <= j < |fields| && j != IndexOf(fields, PUBLISHED) && j != IndexOf(fields, VALID) ==>
            new_[j] == fields[j])
      && (forall key :: key != PUBLISHED && key != VALID ==> StringField(new_, key) == StringField(fields, key))
  {
    var new_ := Renewed(fields, published, valid);
    forall key
      ensures IndexOf(new_, key) == IndexOf(fields, key)
    {
      SameKeysSameIndex(fields, new_, key);
    }
  }

  lemma SameKeysSameIndex(a: seq<Field>, b: seq<Field>, key: string)
    requires |a| == |b| && forall j :: 0 <= j < |a| ==> a[j].key == b[j].key
    ensures IndexOf(a, key) == IndexOf(b, key)
  {
    var i, k := IndexOf(a, key), IndexOf(b, key);
    assert i < |a| ==> b[i].key == key;
    assert k < |b| ==> a[k].key == key;
  }

  /** The timestamp that `key` has is readable. */
  predicate Readable(lib: Library, fields: seq<Field>, key: string) {
    StringField(fields, key).Some? && ParseTime(lib, StringField(fields, key).value).Some?
  }

  /** The timestamps asked for are readable and one renewal window apart. */
  predicate OneWindow(lib: Library, published: string, valid: string) {
    var from, to := ParseTime(lib, published), ParseTime(lib, valid);
    from.Some? && to.Some? && to.value - from.value == 604_800
  }

  /** The source opens before it closes. */
  predicate InOrder(lib: Library, fields: seq<Field>) {
    Readable(lib, fields, PUBLISHED) && Readable(lib, fields, VALID)
    && ParseTime(lib, OldPublished(fields)).value < ParseTime(lib, OldValid(fields)).value
  }

  /** The time field stands in the text as written, at its own place and nowhere else. */
  ghost predicate StandsOnce(source: string, fields: seq<Field>, key: string) {
    StringField(fields, key).Some?
    && OnlyAt(source, TimeField(key, StringField(fields, key).value), Position(fields, IndexOf(fields, key)))
  }

  /** Exactly when renewal accepts a source that parses to an object. */
  lemma AcceptedIffUnique(lib: Library, source: string, fields: seq<Field>, published: string, valid: string)
    requires lib.loads(source) == Some(Obj(fields)) && LiteralsOk(Obj(fields))
    ensures Renew(lib, source, published, valid).Ok?
       <==> (OneWindow(lib, published, valid) && source == Dumps(Obj(fields)) && InOrder(lib, fields)
             && StandsOnce(source, fields, PUBLISHED) && StandsOnce(source, fields, VALID))
  {
    hide Count; hide OnlyAt; hide Replace; hide TimeField; hide Dumps; hide TimeShape; hide StringField; hide LiteralsOk;
    if source == Dumps(Obj(fields)) && InOrder(lib, fields) {
      CountIffOnly(lib, source, fields, PUBLISHED, OldPublished(fields));
      CountIffOnly(lib, source, fields, VALID, OldValid(fields));
    }
  }

  lemma CountIffOnly(lib: Library, source: string, fields: seq<Field>, name: string, old_: string)
    requires source == Dumps(Obj(fields)) && LiteralsOk(Obj(fields))
    requires name == PUBLISHED || name == VALID
    requires StringField(fields, name) == Some(old_) && TimeShape(lib, old_)
    ensures Count(source, TimeField(name, old_)) == 1
       <==> OnlyAt(source, TimeField(name, old_), Position(fields, IndexOf(fields, name)))
  {
    NamesPlain();
    TimeFieldText(name, old_);
    TimeShapeText(lib, old_);
    if Count(source, TimeField(name, old_)) == 1 {
      OldFieldPrints(lib, source, fields, name, old_);
      FieldUnique(fields, IndexOf(fields, name), name, EscapedAscii(old_));
    } else if OnlyAt(source, TimeField(name, old_), Position(fields, IndexOf(fields, name))) {
      CountOnly(source, TimeField(name, old_), Position(fields, IndexOf(fields, name)));
    }
  }
}
