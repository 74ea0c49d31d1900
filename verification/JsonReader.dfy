/**
 Reading JSON text (RFC 8259), written without regard to how anything is printed:
 any blanks, both cases of hexadecimal digits, surrogate pairs. What the canonical
 printer writes reads back as what was printed, whichever way strings are escaped.
 */
module JsonReader {
  import opened Common
  import opened CanonicalJson

  datatype Taken<T> = Taken(value: T, rest: string)

  // ------------------------------------------------------------ strings

  function HexValue(c: char): Option<nat> {
    if '0' <= c <= '9' then Some(c as int - '0' as int)
    else if 'a' <= c <= 'f' then Some(c as int - 'a' as int + 10)
    else if 'A' <= c <= 'F' then Some(c as int - 'A' as int + 10)
    else None
  }

  /** Four hexadecimal digits. */
  function Unit(s: string): (r: Option<nat>)
    ensures r.Some? ==> |s| >= 4
  {
    if |s| < 4 then None
    else
      var a, b, c, d := HexValue(s[0]), HexValue(s[1]), HexValue(s[2]), HexValue(s[3]);
      if a.None? || b.None? || c.None? || d.None? then None
      else Some(((a.value * 16 + b.value) * 16 + c.value) * 16 + d.value)
  }

  /** What follows `\u`. A surrogate without its partner stands for no character. */
  function Unicode(s: string): (r: Option<Taken<char>>)
    ensures r.Some? ==> |r.value.rest| < |s|
  {
    var unit := Unit(s);
    if unit.None? then None
    else
      var n := unit.value;
      if n < 0xd800 || 0xe000 <= n < 0x10000 then Some(Taken(n as char, s[4..]))
      else if n < 0xdc00 && |s| >= 6 && s[4] == '\\' && s[5] == 'u' then
        var low := Unit(s[6..]);
        if low.Some? && 0xdc00 <= low.value < 0xe000 then
          Some(Taken((0x10000 + (n - 0xd800) * 0x400 + (low.value - 0xdc00)) as char, s[10..]))
        else None
      else None
  }

  /** What follows a backslash. */
  function Escape(s: string): (r: Option<Taken<char>>)
    ensures r.Some? ==> |r.value.rest| < |s|
  {
    if s == "" then None
    else if s[0] == 'u' then Unicode(s[1..])
    else if s[0] == '\"' || s[0] == '\\' || s[0] == '/' then Some(Taken(s[0], s[1..]))
    else if s[0] == 'b' then Some(Taken(8 as char, s[1..]))
    else if s[0] == 'f' then Some(Taken(12 as char, s[1..]))
    else if s[0] == 'n' then Some(Taken('\n', s[1..]))
    else if s[0] == 'r' then Some(Taken('\r', s[1..]))
    else if s[0] == 't' then Some(Taken('\t', s[1..]))
    else None
  }

  function WithChar(c: char, r: Option<Taken<string>>): Option<Taken<string>> {
    match r
    case None => None
    case Some(t) => Some(Taken([c] + t.value, t.rest))
  }

  /** What follows an opening quote. */
  function Text(s: string): (r: Option<Taken<string>>)
    ensures r.Some? ==> |r.value.rest| < |s|
    decreases |s|
  {
    if s == "" || s[0] as int < 0x20 then None
    else if s[0] == '\"' then Some(Taken("", s[1..]))
    else if s[0] == '\\' then
      var e := Escape(s[1..]);
      if e.None? then None else WithChar(e.value.value, Text(e.value.rest))
    else WithChar(s[0], Text(s[1..]))
  }

  // ------------------------------------------------------------ values

  predicate Blank(c: char) {
    c == ' ' || c == '\t' || c == '\n' || c == '\r'
  }

  function Skip(s: string): (r: string)
    ensures |r| <= |s| && (r == "" || !Blank(r[0]))
  {
    if s != "" && Blank(s[0]) then Skip(s[1..]) else s
  }

  predicate NumberChar(c: char) {
    '0' <= c <= '9' || c == '-' || c == '+' || c == '.' || c == 'e' || c == 'E'
  }

  /** How many characters from the start can belong to a number. */
  function NumberLength(s: string): (n: nat)
    ensures n <= |s|
  {
    if s == "" || !NumberChar(s[0]) then 0 else 1 + NumberLength(s[1..])
  }

  predicate Starts(s: string, word: string) {
    |word| <= |s| && forall i :: 0 <= i < |word| ==> s[i] == word[i]
  }

  function Value(s: string): (r: Option<Taken<Json>>)
    ensures r.Some? ==> |r.value.rest| < |s|
    decreases |s|, 1
  {
    var t := Skip(s);
    if t == "" then None
    else if t[0] == '\"' then
      var text := Text(t[1..]);
      if text.None? then None else Some(Taken(Str(text.value.value), text.value.rest))
    else if t[0] == '[' then
      var inside := Skip(t[1..]);
      if inside != "" && inside[0] == ']' then Some(Taken(Arr([]), inside[1..]))
      else
        var items := Items(t[1..]);
        if items.None? then None else Some(Taken(Arr(items.value.value), items.value.rest))
    else if t[0] == '{' then
      var inside := Skip(t[1..]);
      if inside != "" && inside[0] == '}' then Some(Taken(Obj([]), inside[1..]))
      else
        var fields := Fields(t[1..]);
        if fields.None? then None else Some(Taken(Obj(fields.value.value), fields.value.rest))
    else if Starts(t, "null") then Some(Taken(Null, t[4..]))
    else if Starts(t, "true") then Some(Taken(Bool(true), t[4..]))
    else if Starts(t, "false") then Some(Taken(Bool(false), t[5..]))
    else
      var n := NumberLength(t);
      if n == 0 then None else Some(Taken(Number(t[..n]), t[n..]))
  }

  function Items(s: string): (r: Option<Taken<seq<Json>>>)
    ensures r.Some? ==> |r.value.rest| < |s|
    decreases |s|, 2
  {
    var first := Value(s);
    if first.None? then None
    else
      var t := Skip(first.value.rest);
      if t == "" then None
      else if t[0] == ']' then Some(Taken([first.value.value], t[1..]))
      else if t[0] == ',' then
        var more := Items(t[1..]);
        if more.None? then None else Some(Taken([first.value.value] + more.value.value, more.value.rest))
      else None
  }

  /** A key, a colon and a value. */
  function Entry(s: string): (r: Option<Taken<Field>>)
    ensures r.Some? ==> |r.value.rest| < |s|
    decreases |s|, 2
  {
    var t := Skip(s);
    if t == "" || t[0] != '\"' then None
    else
      var key := Text(t[1..]);
      if key.None? then None
      else
        var u := Skip(key.value.rest);
        if u == "" || u[0] != ':' then None
        else
          var value := Value(u[1..]);
          if value.None? then None
          else Some(Taken(Field(key.value.value, value.value.value), value.value.rest))
  }

  function Fields(s: string): (r: Option<Taken<seq<Field>>>)
    ensures r.Some? ==> |r.value.rest| < |s|
    decreases |s|, 3
  {
    var first := Entry(s);
    if first.None? then None
    else
      var t := Skip(first.value.rest);
      if t == "" then None
      else if t[0] == '}' then Some(Taken([first.value.value], t[1..]))
      else if t[0] == ',' then
        var more := Fields(t[1..]);
        if more.None? then None else Some(Taken([first.value.value] + more.value.value, more.value.rest))
      else None
  }

  /** One value and nothing else. */
  function Loads(s: string): Option<Json> {
    var v := Value(s);
    if v.Some? && Skip(v.value.rest) == "" then Some(v.value.value) else None
  }

  // ------------------------------------------------------------ escaped strings read back

  lemma HexDigitReads(n: nat)
    requires n < 16
    ensures HexValue(HexDigit(n)) == Some(n)
  {
  }

  lemma DigitsOf(u: nat)
    requires u < 0x10000
    ensures u / 0x1000 < 16 && ((u / 0x1000 * 16 + u / 0x100 % 16) * 16 + u / 16 % 16) * 16 + u % 16 == u
  {
  }

  lemma UnitReads(u: nat, rest: string)
    requires u < 0x10000
    ensures Unit(UnicodeEscape(u)[2..] + rest) == Some(u)
  {
    hide HexValue, HexDigit;
    DigitsOf(u);
    HexDigitReads(u / 0x1000);
    HexDigitReads(u / 0x100 % 16);
    HexDigitReads(u / 16 % 16);
    HexDigitReads(u % 16);
    var e := UnicodeEscape(u);
    assert e[2..] == [HexDigit(u / 0x1000), HexDigit(u / 0x100 % 16), HexDigit(u / 16 % 16), HexDigit(u % 16)];
  }

  lemma EscapeParts(u: nat, rest: string)
    requires u < 0x10000
    ensures var e := UnicodeEscape(u);
      |e[2..]| == 4 && (e + rest)[0] == '\\' && (e + rest)[1] == 'u' && (e + rest)[2..] == e[2..] + rest
  {
  }

  lemma PlainEscapeReads(c: char, rest: string)
    requires (c as int) < 0x10000
    ensures Escape((UnicodeEscape(c as int) + rest)[1..]) == Some(Taken(c, rest))
  {
    hide UnicodeEscape, Unit;
    var u := c as int;
    var s := (UnicodeEscape(u) + rest)[1..];
    UnitReads(u, rest);
    EscapeParts(u, rest);
    assert s[1..] == UnicodeEscape(u)[2..] + rest && s[1..][4..] == rest;
  }

  lemma Halves(n: nat)
    requires 0x10000 <= n < 0x110000
    ensures var m := n - 0x10000; var high, low := 0xd800 + m / 0x400, 0xdc00 + m % 0x400;
      0xd800 <= high < 0xdc00 <= low < 0xe000 && 0x10000 + (high - 0xd800) * 0x400 + (low - 0xdc00) == n
  {
  }

  lemma SurrogatesRead(high: nat, low: nat, rest: string)
    requires 0xd800 <= high < 0xdc00 <= low < 0xe000
    ensures Unicode(UnicodeEscape(high)[2..] + (UnicodeEscape(low) + rest))
         == Some(Taken((0x10000 + (high - 0xd800) * 0x400 + (low - 0xdc00)) as char, rest))
  {
    hide UnicodeEscape, Unit;
    var second := UnicodeEscape(low) + rest;
    var s := UnicodeEscape(high)[2..] + second;
    UnitReads(high, second);
    UnitReads(low, rest);
    EscapeParts(high, second);
    EscapeParts(low, rest);
    assert s[4] == second[0] && s[5] == second[1];
    assert s[6..] == second[2..] && s[10..] == rest;
  }

  lemma PairEscapeReads(c: char, rest: string)
    requires 0x10000 <= (c as int)
    ensures Escape((EscapeAscii(c) + rest)[1..]) == Some(Taken(c, rest))
  {
    hide Unicode, UnicodeEscape;
    var n := c as int;
    Halves(n);
    var high, low := 0xd800 + (n - 0x10000) / 0x400, 0xdc00 + (n - 0x10000) % 0x400;
    SurrogatesRead(high, low, rest);
    StartsEscape(high, UnicodeEscape(low) + rest);
    assert EscapeAscii(c) + rest == UnicodeEscape(high) + (UnicodeEscape(low) + rest);
  }

  lemma StartsEscape(u: nat, rest: string)
    requires u < 0x10000
    ensures var s := (UnicodeEscape(u) + rest)[1..]; s[0] == 'u' && s[1..] == UnicodeEscape(u)[2..] + rest
  {
  }

  lemma EscapedReads(escaped: string, c: char, rest: string)
    requires |escaped| >= 2 && escaped[0] == '\\' && Escape((escaped + rest)[1..]) == Some(Taken(c, rest))
    ensures Text(escaped + rest) == WithChar(c, Text(rest))
  {
    hide Escape;
  }

  lemma RawCharReads(c: char, rest: string)
    ensures Text(EscapeRaw(c) + rest) == WithChar(c, Text(rest))
  {
    var e := EscapeRaw(c);
    if |e| == 6 {
      PlainEscapeReads(c, rest);
      EscapedReads(e, c, rest);
    } else if |e| == 2 {
      assert (e + rest)[1..][0] == e[1] && (e + rest)[1..][1..] == rest;
      EscapedReads(e, c, rest);
    } else {
      assert (e + rest)[1..] == rest;
    }
  }

  lemma AsciiCharReads(c: char, rest: string)
    ensures Text(EscapeAscii(c) + rest) == WithChar(c, Text(rest))
  {
    hide Text, EscapeRaw;
    var n := c as int;
    if n < 0x7f {
      RawCharReads(c, rest);
    } else if n < 0x10000 {
      PlainEscapeReads(c, rest);
      EscapedReads(EscapeAscii(c), c, rest);
    } else {
      PairEscapeReads(c, rest);
      EscapedReads(EscapeAscii(c), c, rest);
    }
  }

  lemma ClosingQuote(rest: string)
    ensures Text("\"" + rest) == Some(Taken("", rest))
  {
  }

  /** A string escaped as the manifest has it reads back as it was. */
  lemma {:induction false} RawReads(s: string, rest: string)
    ensures Text(EscapedRaw(s) + ("\"" + rest)) == Some(Taken(s, rest))
    decreases |s|
  {
    hide Text, EscapeRaw;
    if s == "" {
      ClosingQuote(rest);
      assert EscapedRaw(s) + ("\"" + rest) == "\"" + rest;
    } else {
      var tail := EscapedRaw(s[1..]) + ("\"" + rest);
      Associative(EscapeRaw(s[0]), EscapedRaw(s[1..]), "\"" + rest);
      RawCharReads(s[0], tail);
      RawReads(s[1..], rest);
      assert s == [s[0]] + s[1..];
    }
  }

  /** So does one escaped for ASCII alone. */
  lemma {:induction false} AsciiReads(s: string, rest: string)
    ensures Text(EscapedAscii(s) + ("\"" + rest)) == Some(Taken(s, rest))
    decreases |s|
  {
    hide Text, EscapeAscii;
    if s == "" {
      ClosingQuote(rest);
      assert EscapedAscii(s) + ("\"" + rest) == "\"" + rest;
    } else {
      var tail := EscapedAscii(s[1..]) + ("\"" + rest);
      Associative(EscapeAscii(s[0]), EscapedAscii(s[1..]), "\"" + rest);
      AsciiCharReads(s[0], tail);
      AsciiReads(s[1..], rest);
      assert s == [s[0]] + s[1..];
    }
  }

  // ------------------------------------------------------------ printed values read back

  /** Number literals are runs of the characters numbers are made of. */
  ghost predicate Numeric(j: Json) {
    match j
    case Number(literal) => literal != "" && forall i :: 0 <= i < |literal| ==> NumberChar(literal[i])
    case Arr(items) => forall i :: 0 <= i < |items| ==> Numeric(items[i])
    case Obj(fields) => forall i :: 0 <= i < |fields| ==> NumericField(fields[i])
    case _ => true
  }

  ghost predicate NumericField(field: Field) {
    Numeric(field.value)
  }

  /** Text that does not go on with a number. */
  predicate Stops(rest: string) {
    rest == "" || !NumberChar(rest[0])
  }

  lemma {:induction false} NumberReads(literal: string, rest: string)
    requires Stops(rest) && forall i :: 0 <= i < |literal| ==> NumberChar(literal[i])
    ensures NumberLength(literal + rest) == |literal|
  {
    if literal == "" {
      assert literal + rest == rest;
    } else {
      assert (literal + rest)[1..] == literal[1..] + rest;
      NumberReads(literal[1..], rest);
    }
  }

  lemma {:induction false} SkipSpaces(n: nat, rest: string)
    ensures Skip(Spaces(n) + rest) == Skip(rest)
  {
    if n == 0 {
      assert Spaces(0) + rest == rest;
    } else {
      assert (Spaces(n) + rest)[1..] == Spaces(n - 1) + rest;
      SkipSpaces(n - 1, rest);
    }
  }

  lemma SkipNewLine(depth: nat, rest: string)
    ensures Skip(NewLine(depth) + rest) == Skip(rest)
  {
    assert (NewLine(depth) + rest)[1..] == Spaces(2 * depth) + rest;
    SkipSpaces(2 * depth, rest);
  }

  /** Blanks in front change nothing. */
  lemma SkippedFirst(blanks: string, s: string)
    requires Skip(blanks + s) == Skip(s)
    ensures Value(blanks + s) == Value(s) && Entry(blanks + s) == Entry(s)
  {
  }

  lemma StrReads(text: string, rest: string)
    ensures Value(Quote(text) + rest) == Some(Taken(Str(text), rest))
  {
    hide Text, EscapedRaw;
    RawReads(text, rest);
    var s := Quote(text) + rest;
    assert s[1..] == EscapedRaw(text) + ("\"" + rest);
  }

  lemma WordsRead(rest: string)
    ensures Value("null" + rest) == Some(Taken(Null, rest))
    ensures Value("true" + rest) == Some(Taken(Bool(true), rest))
    ensures Value("false" + rest) == Some(Taken(Bool(false), rest))
  {
    hide Text, Items, Fields, NumberLength;
    assert ("null" + rest)[4..] == rest && ("true" + rest)[4..] == rest && ("false" + rest)[5..] == rest;
  }

  lemma NumReads(literal: string, rest: string)
    requires Numeric(Number(literal)) && Stops(rest)
    ensures Value(literal + rest) == Some(Taken(Number(literal), rest))
  {
    hide Text, Items, Fields, NumberLength;
    NumberReads(literal, rest);
    var s := literal + rest;
    assert s[0] == literal[0] && NumberChar(s[0]);
    assert s[..|literal|] == literal && s[|literal|..] == rest;
    assert !Starts(s, "null") && !Starts(s, "true") && !Starts(s, "false");
  }

  lemma EmptyReads(rest: string)
    ensures Value("[]" + rest) == Some(Taken(Arr([]), rest)) && Value("{}" + rest) == Some(Taken(Obj([]), rest))
  {
    hide Text, Items, Fields, NumberLength;
    assert ("[]" + rest)[1..] == "]" + rest && ("]" + rest)[1..] == rest;
    assert ("{}" + rest)[1..] == "}" + rest && ("}" + rest)[1..] == rest;
  }

  /** The printed field, whatever follows, reads as `meant`. */
  ghost predicate Spells(field: Field, meant: Field, depth: nat) {
    forall rest: string :: Stops(rest) ==> Entry(FieldText(field, depth) + rest) == Some(Taken(meant, rest))
  }

  /** A quoted key, a colon, and text that reads as a value. */
  lemma EntryReads(key: string, text: string, value: Json, rest: string)
    requires Value(text + rest) == Some(Taken(value, rest))
    ensures Entry(Quote(key) + ": " + text + rest) == Some(Taken(Field(key, value), rest))
  {
    hide Text, Value, EscapedRaw;
    var s := Quote(key) + ": " + text + rest;
    RawReads(key, ": " + (text + rest));
    assert s[1..] == EscapedRaw(key) + ("\"" + (": " + (text + rest)));
    var u := ": " + (text + rest);
    assert Skip(u) == u && u[1..] == " " + (text + rest);
    assert (" " + (text + rest))[1..] == text + rest;
    SkippedFirst(" ", text + rest);
  }

  lemma PrintedFieldSpells(field: Field, depth: nat)
    requires forall rest: string :: Stops(rest) ==> Value(Print(field.value, depth) + rest) == Some(Taken(field.value, rest))
    ensures Spells(field, field, depth)
  {
    hide Value, Print, Quote, Entry;
    forall rest: string | Stops(rest)
      ensures Entry(FieldText(field, depth) + rest) == Some(Taken(field, rest))
    {
      EntryReads(field.key, Print(field.value, depth), field.value, rest);
    }
  }

  /** A list of printed fields reads as what each of them spells. */
  lemma {:induction false} SpelledFieldsRead(fields: seq<Field>, meant: seq<Field>, depth: nat, outer: nat, rest: string)
    requires |fields| == |meant| > 0 && forall i :: 0 <= i < |fields| ==> Spells(fields[i], meant[i], depth)
    ensures Fields(PrintFields(fields, depth) + (NewLine(outer) + ("}" + rest))) == Some(Taken(meant, rest))
    decreases |fields|
  {
    hide Entry, FieldText, NewLine, Skip;
    var closing := NewLine(outer) + ("}" + rest);
    var tail := (if |fields| == 1 then "" else ",") + PrintFields(fields[1..], depth);
    var s := PrintFields(fields, depth) + closing;
    FieldsRegroup(fields, depth, closing);
    SkipNewLine(depth, FieldText(fields[0], depth) + (tail + closing));
    SkippedFirst(NewLine(depth), FieldText(fields[0], depth) + (tail + closing));
    TailStops(tail, outer, rest, |fields| == 1);
    assert Spells(fields[0], meant[0], depth);
    assert Entry(s) == Some(Taken(meant[0], tail + closing));
    if |fields| == 1 {
      assert PrintFields(fields[1..], depth) == "" && tail + closing == closing;
      SkipNewLine(outer, "}" + rest);
      OpenSkip('}', rest);
      assert meant == [meant[0]];
    } else {
      assert tail + closing == "," + (PrintFields(fields[1..], depth) + closing);
      OpenSkip(',', PrintFields(fields[1..], depth) + closing);
      assert forall i :: 0 <= i < |fields[1..]| ==> fields[1..][i] == fields[i + 1] && meant[1..][i] == meant[i + 1];
      SpelledFieldsRead(fields[1..], meant[1..], depth, outer, rest);
      assert meant == [meant[0]] + meant[1..];
    }
  }

  lemma FieldsRegroup(fields: seq<Field>, depth: nat, closing: string)
    requires fields != []
    ensures var tail := (if |fields| == 1 then "" else ",") + PrintFields(fields[1..], depth);
      && PrintFields(fields, depth) + closing == NewLine(depth) + (FieldText(fields[0], depth) + (tail + closing))
      && (|fields| == 1 ==> tail == "") && (|fields| > 1 ==> tail[0] == ',' && tail[1..] == PrintFields(fields[1..], depth))
  {
    var comma := if |fields| == 1 then "" else ",";
    PrintFieldsUnfold(fields, depth);
    NoFieldsPrinted(depth);
    assert |fields| == 1 ==> fields[1..] == [];
    hide FieldText, NewLine, PrintFields;
    FourAndOne(NewLine(depth), FieldText(fields[0], depth), comma, PrintFields(fields[1..], depth), closing);
  }

  lemma NoFieldsPrinted(depth: nat)
    ensures PrintFields([], depth) == ""
  {
  }

  lemma FourAndOne(a: string, b: string, c: string, d: string, e: string)
    ensures (a + b + c + d) + e == a + (b + ((c + d) + e))
  {
  }

  lemma TailStops(tail: string, outer: nat, rest: string, last: bool)
    requires if last then tail == "" else tail != "" && tail[0] == ','
    ensures Stops(tail + (NewLine(outer) + ("}" + rest))) && Stops(tail + (NewLine(outer) + ("]" + rest)))
  {
  }

  lemma OpenSkip(c: char, rest: string)
    requires !Blank(c)
    ensures Skip([c] + rest) == [c] + rest && ([c] + rest)[0] == c && ([c] + rest)[1..] == rest
  {
  }

  lemma {:induction false} PrintedItemsRead(items: seq<Json>, depth: nat, outer: nat, rest: string)
    requires items != []
    requires forall i, after: string :: 0 <= i < |items| && Stops(after) ==>
      Value(Print(items[i], depth) + after) == Some(Taken(items[i], after))
    ensures Items(PrintItems(items, depth) + (NewLine(outer) + ("]" + rest))) == Some(Taken(items, rest))
    decreases |items|
  {
    hide Value, Print, NewLine, Skip;
    var closing := NewLine(outer) + ("]" + rest);
    PrintItemsUnfold(items, depth);
    var tail := (if |items| == 1 then "" else ",") + PrintItems(items[1..], depth);
    var s := PrintItems(items, depth) + closing;
    assert s == NewLine(depth) + (Print(items[0], depth) + (tail + closing)) by {
      if |items| == 1 {
        assert PrintItems(items[1..], depth) == "";
      }
    }
    SkipNewLine(depth, Print(items[0], depth) + (tail + closing));
    SkippedFirst(NewLine(depth), Print(items[0], depth) + (tail + closing));
    TailStops(tail, outer, rest, |items| == 1);
    assert Value(s) == Some(Taken(items[0], tail + closing));
    if |items| == 1 {
      assert PrintItems(items[1..], depth) == "" && tail + closing == closing;
      SkipNewLine(outer, "]" + rest);
      OpenSkip(']', rest);
      assert items == [items[0]];
    } else {
      assert tail + closing == "," + (PrintItems(items[1..], depth) + closing);
      OpenSkip(',', PrintItems(items[1..], depth) + closing);
      assert forall i :: 0 <= i < |items[1..]| ==> items[1..][i] == items[i + 1];
      PrintedItemsRead(items[1..], depth, outer, rest);
      assert items == [items[0]] + items[1..];
    }
  }

  function ArrOf(items: Option<Taken<seq<Json>>>): Option<Taken<Json>> {
    if items.None? then None else Some(Taken(Arr(items.value.value), items.value.rest))
  }

  function ObjOf(fields: Option<Taken<seq<Field>>>): Option<Taken<Json>> {
    if fields.None? then None else Some(Taken(Obj(fields.value.value), fields.value.rest))
  }

  /** After an opening bracket, something that does not close it. */
  lemma OpenedItems(body: string)
    requires Skip(body) != "" && Skip(body)[0] != ']'
    ensures Value("[" + body) == ArrOf(Items(body))
  {
    hide Text, Items, Fields, NumberLength, Skip, Starts;
    var t := "[" + body;
    OpenSkip('[', body);
    assert Skip(t) == t && t[0] == '[' && t[1..] == body;
  }

  lemma OpenedFields(body: string)
    requires Skip(body) != "" && Skip(body)[0] != '}'
    ensures Value("{" + body) == ObjOf(Fields(body))
  {
    hide Text, Items, Fields, NumberLength, Skip, Starts;
    var t := "{" + body;
    OpenSkip('{', body);
    assert Skip(t) == t && t[0] == '{' && t[1..] == body;
  }

  /** Nothing that is printed starts with a blank or a closing bracket. */
  predicate Opens(s: string) {
    s != "" && !Blank(s[0]) && s[0] != ']' && s[0] != '}'
  }

  lemma PrintOpens(j: Json, depth: nat)
    requires Numeric(j)
    ensures Opens(Print(j, depth))
  {
    hide PrintItems, PrintFields, EscapedRaw;
  }

  lemma BodyOpens(depth: nat, first: string, rest: string)
    requires Opens(first)
    ensures var body := NewLine(depth) + first + rest; Skip(body) != "" && Opens(Skip(body))
  {
    hide NewLine;
    Associative(NewLine(depth), first, rest);
    SkipNewLine(depth, first + rest);
    assert Skip(first + rest) == first + rest;
  }

  lemma {:induction false} ArrReads(items: seq<Json>, depth: nat, rest: string)
    requires items != [] && Numeric(items[0])
    requires forall i, after: string :: 0 <= i < |items| && Stops(after) ==>
      Value(Print(items[i], depth + 1) + after) == Some(Taken(items[i], after))
    ensures Value(Print(Arr(items), depth) + rest) == Some(Taken(Arr(items), rest))
  {
    hide Value, Items, NewLine, Skip, Print;
    var body := PrintItems(items, depth + 1) + (NewLine(depth) + ("]" + rest));
    PrintedItemsRead(items, depth + 1, depth, rest);
    PrintItemsUnfold(items, depth + 1);
    PrintOpens(items[0], depth + 1);
    var tail := (if |items| == 1 then "" else ",") + PrintItems(items[1..], depth + 1) + (NewLine(depth) + ("]" + rest));
    assert body == NewLine(depth + 1) + Print(items[0], depth + 1) + tail;
    BodyOpens(depth + 1, Print(items[0], depth + 1), tail);
    OpenedItems(body);
    PrintArr(items, depth, rest);
  }

  lemma PrintArr(items: seq<Json>, depth: nat, rest: string)
    requires items != []
    ensures Print(Arr(items), depth) + rest == "[" + (PrintItems(items, depth + 1) + (NewLine(depth) + ("]" + rest)))
  {
    hide PrintItems, NewLine;
  }

  lemma PrintObj(fields: seq<Field>, depth: nat, rest: string)
    requires fields != []
    ensures Print(Obj(fields), depth) + rest == "{" + (PrintFields(fields, depth + 1) + (NewLine(depth) + ("}" + rest)))
  {
    hide PrintFields, NewLine;
  }

  /** An object whose fields spell others reads as these. */
  lemma ObjReads(fields: seq<Field>, meant: seq<Field>, depth: nat, rest: string)
    requires |fields| == |meant| > 0 && forall i :: 0 <= i < |fields| ==> Spells(fields[i], meant[i], depth + 1)
    ensures Value(Print(Obj(fields), depth) + rest) == Some(Taken(Obj(meant), rest))
  {
    hide Value, Fields, NewLine, Skip, Print, Spells, EscapedRaw;
    var body := PrintFields(fields, depth + 1) + (NewLine(depth) + ("}" + rest));
    SpelledFieldsRead(fields, meant, depth + 1, depth, rest);
    PrintFieldsUnfold(fields, depth + 1);
    var tail := (if |fields| == 1 then "" else ",") + PrintFields(fields[1..], depth + 1) + (NewLine(depth) + ("}" + rest));
    assert body == NewLine(depth + 1) + FieldText(fields[0], depth + 1) + tail;
    assert Opens(FieldText(fields[0], depth + 1));
    BodyOpens(depth + 1, FieldText(fields[0], depth + 1), tail);
    OpenedFields(body);
    PrintObj(fields, depth, rest);
  }

  /** Whatever is printed reads back, at any depth and whatever follows. */
  lemma {:induction false} PrintReads(j: Json, depth: nat, rest: string)
    requires Numeric(j) && Stops(rest)
    ensures Value(Print(j, depth) + rest) == Some(Taken(j, rest))
    decreases j, 1
  {
    hide Value, PrintItems, PrintFields, NewLine, Spells;
    match j
    case Null => WordsRead(rest);
    case Bool(_) => WordsRead(rest);
    case Number(literal) => NumReads(literal, rest);
    case Str(text) => StrReads(text, rest);
    case Arr(items) =>
      if items == [] {
        EmptyReads(rest);
      } else {
        forall i, after: string | 0 <= i < |items| && Stops(after)
          ensures Value(Print(items[i], depth + 1) + after) == Some(Taken(items[i], after))
        {
          PrintReads(items[i], depth + 1, after);
        }
        ArrReads(items, depth, rest);
      }
    case Obj(fields) =>
      if fields == [] {
        EmptyReads(rest);
      } else {
        forall i | 0 <= i < |fields|
          ensures Spells(fields[i], fields[i], depth + 1)
        {
          FieldReads(fields[i], depth + 1);
        }
        ObjReads(fields, fields, depth, rest);
      }
  }

  lemma {:induction false} FieldReads(field: Field, depth: nat)
    requires NumericField(field)
    ensures Spells(field, field, depth)
    decreases field, 0
  {
    forall rest: string | Stops(rest)
      ensures Value(Print(field.value, depth) + rest) == Some(Taken(field.value, rest))
    {
      PrintReads(field.value, depth, rest);
    }
    PrintedFieldSpells(field, depth);
  }

  lemma FileReads(text: string, j: Json)
    requires Value(text + "\n") == Some(Taken(j, "\n"))
    ensures Loads(text + "\n") == Some(j)
  {
    hide Value;
    assert Skip("\n") == "" by {
      assert "\n"[1..] == "";
    }
  }

  /** The canonical file of a manifest reads back as that manifest. */
  lemma DumpsReadsBack(j: Json)
    requires Numeric(j)
    ensures Loads(Dumps(j)) == Some(j)
  {
    hide Loads, Print;
    PrintReads(j, 0, "\n");
    FileReads(Print(j, 0), j);
  }

  /** So different manifests have different canonical files. */
  lemma DumpsInjective(a: Json, b: Json)
    requires Numeric(a) && Numeric(b) && Dumps(a) == Dumps(b)
    ensures a == b
  {
    DumpsReadsBack(a);
    DumpsReadsBack(b);
  }
}
