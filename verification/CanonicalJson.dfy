/**
 The canonical form of a release manifest: what Python's `json.dumps` prints
 with `indent=2`, as RFC 8259 text, and the two ways it escapes strings.
 */
module CanonicalJson {
  import opened Common

  /** A number is kept as its literal: the renewal never looks inside one. */
  datatype Json =
    | Null
    | Bool(value: bool)
    | Number(literal: string)
    | Str(text: string)
    | Arr(items: seq<Json>)
    | Obj(fields: seq<Field>)

  datatype Field = Field(key: string, value: Json)

  /** The place of `key` in an object, or the number of its fields when it has none. */
  function IndexOf(fields: seq<Field>, key: string): (i: nat)
    ensures i <= |fields| && (i < |fields| ==> fields[i].key == key)
    ensures forall j :: 0 <= j < i ==> fields[j].key != key
  {
    if fields == [] || fields[0].key == key then 0 else 1 + IndexOf(fields[1..], key)
  }

  // ------------------------------------------------------------------ strings

  function HexDigit(n: nat): char
    requires n < 16
  {
    "0123456789abcdef"[n]
  }

  function UnicodeEscape(unit: nat): (s: string)
    requires unit < 0x10000
    ensures |s| == 6
  {
    "\\u" + [HexDigit(unit / 0x1000), HexDigit(unit / 0x100 % 16), HexDigit(unit / 16 % 16), HexDigit(unit % 16)]
  }

  /** `ensure_ascii=False`: only quotes, backslashes and control characters. */
  function EscapeRaw(c: char): string {
    if c == '\"' then "\\\""
    else if c == '\\' then "\\\\"
    else if c == '\n' then "\\n"
    else if c == '\r' then "\\r"
    else if c == '\t' then "\\t"
    else if c as int == 8 then "\\b"
    else if c as int == 12 then "\\f"
    else if c as int < 0x20 then UnicodeEscape(c as int)
    else [c]
  }

  /** `ensure_ascii=True`: everything outside the printable ASCII range as well,
      as a surrogate pair beyond the basic plane. */
  function EscapeAscii(c: char): string {
    var n := c as int;
    if n < 0x7f then EscapeRaw(c)
    else if n < 0x10000 then UnicodeEscape(n)
    else UnicodeEscape(0xd800 + (n - 0x10000) / 0x400) + UnicodeEscape(0xdc00 + (n - 0x10000) % 0x400)
  }

  function EscapedRaw(s: string): string {
    if s == "" then "" else EscapeRaw(s[0]) + EscapedRaw(s[1..])
  }

  function EscapedAscii(s: string): string {
    if s == "" then "" else EscapeAscii(s[0]) + EscapedAscii(s[1..])
  }

  function Quote(s: string): string {
    "\"" + EscapedRaw(s) + "\""
  }

  function QuoteAscii(s: string): string {
    "\"" + EscapedAscii(s) + "\""
  }

  // ----------------------------------------------------------------- printing

  function Spaces(n: nat): (s: string)
    ensures |s| == n
  {
    if n == 0 then "" else " " + Spaces(n - 1)
  }

  function NewLine(depth: nat): string {
    "\n" + Spaces(2 * depth)
  }

  function Print(j: Json, depth: nat): string
    decreases j, 1
  {
    match j
    case Null => "null"
    case Bool(b) => if b then "true" else "false"
    case Number(literal) => literal
    case Str(text) => Quote(text)
    case Arr(items) =>
      if items == [] then "[]" else "[" + PrintItems(items, depth + 1) + NewLine(depth) + "]"
    case Obj(fields) =>
      if fields == [] then "{}" else "{" + PrintFields(fields, depth + 1) + NewLine(depth) + "}"
  }

  function PrintItems(items: seq<Json>, depth: nat): string
    decreases items, 0
  {
    if items == [] then ""
    else NewLine(depth) + Print(items[0], depth) + (if |items| == 1 then "" else ",") + PrintItems(items[1..], depth)
  }

  function PrintFields(fields: seq<Field>, depth: nat): string
    decreases fields, 0
  {
    if fields == [] then ""
    else
      NewLine(depth) + FieldText(fields[0], depth) + (if |fields| == 1 then "" else ",") + PrintFields(fields[1..], depth)
  }

  function FieldText(field: Field, depth: nat): string
    decreases field
  {
    Quote(field.key) + ": " + Print(field.value, depth)
  }

  /** The whole file: canonical text plus one final newline. */
  function Dumps(j: Json): string {
    Print(j, 0) + "\n"
  }

  // ---------------------------------------------------------- field positions

  /** The printed text before field `i` of a top-level object, up to its key. */
  function Before(fields: seq<Field>, i: nat): string
    requires i < |fields|
  {
    if i == 0 then "\n  "
    else
      "\n  " + FieldText(fields[0], 1) + "," + Before(fields[1..], i - 1)
  }

  /** The printed text after field `i`. */
  function After(fields: seq<Field>, i: nat): string
    requires i < |fields|
  {
    (if i == |fields| - 1 then "" else ",") + PrintFields(fields[i + 1..], 1)
  }

  lemma NewLineOne()
    ensures NewLine(1) == "\n  " && NewLine(0) == "\n"
  {
    assert Spaces(2) == " " + Spaces(1) && Spaces(1) == " " + Spaces(0);
  }

  lemma {:induction false} SplitFields(fields: seq<Field>, i: nat)
    requires i < |fields|
    ensures PrintFields(fields, 1) == Before(fields, i) + FieldText(fields[i], 1) + After(fields, i)
    decreases i
  {
    NewLineOne();
    hide FieldText;
    if i > 0 {
      SplitFields(fields[1..], i - 1);
      assert fields[1..][i - 1..][1..] == fields[i + 1..];
      assert After(fields[1..], i - 1) == After(fields, i);
    }
  }

  /** Where field `i` stands in the file. */
  lemma SplitDumps(fields: seq<Field>, i: nat)
    requires i < |fields|
    ensures Dumps(Obj(fields)) == ("{" + Before(fields, i)) + FieldText(fields[i], 1) + (After(fields, i) + "\n}\n")
  {
    NewLineOne();
    SplitFields(fields, i);
    assert Print(Obj(fields), 0) == "{" + PrintFields(fields, 1) + "\n" + "}";
    Regroup(Before(fields, i), FieldText(fields[i], 1), After(fields, i));
  }

  lemma Regroup(a: string, b: string, c: string)
    ensures "{" + (a + b + c) + "\n" + "}" + "\n" == ("{" + a) + b + (c + "\n}\n")
  {
  }

  lemma {:induction false} BeforeAfterUpdate(fields: seq<Field>, i: nat, field: Field)
    requires i < |fields|
    ensures Before(fields[i := field], i) == Before(fields, i) && After(fields[i := field], i) == After(fields, i)
    decreases i
  {
    if i > 0 {
      assert fields[i := field][1..] == fields[1..][i - 1 := field];
      BeforeAfterUpdate(fields[1..], i - 1, field);
    }
    assert fields[i := field][i + 1..] == fields[i + 1..];
  }

  predicate EndsIndented(s: string) {
    |s| >= 2 && s[|s| - 1] == ' ' && s[|s| - 2] == ' '
  }

  lemma SuffixIndented(a: string, b: string)
    requires EndsIndented(b)
    ensures EndsIndented(a + b)
  {
  }

  /** A field's key is preceded by an indented line start and its value followed
      by a comma or the end of the object. */
  lemma {:induction false} FieldSurroundings(fields: seq<Field>, i: nat)
    requires i < |fields|
    ensures EndsIndented("{" + Before(fields, i))
    ensures var b := After(fields, i) + "\n}\n"; b[0] == ',' || b[0] == '\n'
  {
    BeforeIndented(fields, i);
    SuffixIndented("{", Before(fields, i));
    if i == |fields| - 1 {
      assert After(fields, i) == "";
    }
  }

  lemma {:induction false} BeforeIndented(fields: seq<Field>, i: nat)
    requires i < |fields|
    ensures EndsIndented(Before(fields, i))
    decreases i
  {
    if i > 0 {
      BeforeIndented(fields[1..], i - 1);
      SuffixIndented("\n  " + FieldText(fields[0], 1) + ",", Before(fields[1..], i - 1));
    }
  }

  // ------------------------------------------------------ escapes in the text

  /** Every backslash starts an escape, and a Unicode escape in the text stands
      for a control character. */
  predicate Clean(s: string) {
    if s == "" then true
    else if s[0] != '\\' then Clean(s[1..])
    else if |s| < 2 then false
    else if s[1] != 'u' then Clean(s[2..])
    else |s| >= 6 && s[2] == '0' && s[3] == '0' && s[4] != '\\' && s[5] != '\\' && Clean(s[6..])
  }

  lemma {:induction false} CleanConcat(a: string, b: string)
    requires Clean(a) && Clean(b)
    ensures Clean(a + b)
    decreases |a|
  {
    if a == "" {
      assert a + b == b;
    } else {
      var n := if a[0] != '\\' then 1 else if a[1] != 'u' then 2 else 6;
      assert (a + b)[n..] == a[n..] + b;
      CleanConcat(a[n..], b);
    }
  }

  lemma {:induction false} NoBackslashClean(s: string)
    requires '\\' !in s
    ensures Clean(s)
  {
    if s != "" {
      NoBackslashClean(s[1..]);
    }
  }

  lemma EscapeRawClean(c: char)
    ensures Clean(EscapeRaw(c))
  {
    var e := EscapeRaw(c);
    if |e| == 6 {
      assert e[2] == '0' && e[3] == '0' && e[6..] == "";
    } else if |e| == 2 {
      assert e[2..] == "";
    } else {
      assert e[1..] == "";
    }
  }

  lemma {:induction false} QuoteClean(s: string)
    ensures Clean(EscapedRaw(s)) && Clean(Quote(s))
  {
    if s != "" {
      EscapeRawClean(s[0]);
      QuoteClean(s[1..]);
      CleanConcat(EscapeRaw(s[0]), EscapedRaw(s[1..]));
    }
    NoBackslashClean("\"");
    CleanConcat("\"", EscapedRaw(s));
    CleanConcat("\"" + EscapedRaw(s), "\"");
  }

  /** Number literals are free of backslashes; nothing else is asked of a parse. */
  ghost predicate LiteralsOk(j: Json)
  {
    match j
    case Number(literal) => '\\' !in literal
    case Arr(items) => forall i :: 0 <= i < |items| ==> LiteralsOk(items[i])
    case Obj(fields) => forall i :: 0 <= i < |fields| ==> FieldOk(fields[i])
    case _ => true
  }

  ghost predicate FieldOk(field: Field) {
    LiteralsOk(field.value)
  }

  lemma {:induction false} PrintClean(j: Json, depth: nat)
    requires LiteralsOk(j)
    ensures Clean(Print(j, depth))
    decreases j, 1
  {
    match j
    case Null => NoBackslashClean("null");
    case Bool(b) => NoBackslashClean("true"); NoBackslashClean("false");
    case Number(literal) => NoBackslashClean(literal);
    case Str(text) => QuoteClean(text);
    case Arr(items) =>
      PrintItemsClean(items, depth + 1);
      BracketClean("[", PrintItems(items, depth + 1), depth, "]");
    case Obj(fields) =>
      PrintFieldsClean(fields, depth + 1);
      BracketClean("{", PrintFields(fields, depth + 1), depth, "}");
  }

  lemma BracketClean(open: string, body: string, depth: nat, close: string)
    requires Clean(body) && '\\' !in open && '\\' !in close
    ensures Clean(open + body + NewLine(depth) + close) && Clean(open + close)
  {
    NewLineClean(depth);
    NoBackslashClean(open);
    NoBackslashClean(close);
    CleanConcat(open, close);
    CleanConcat(open, body);
    CleanConcat(open + body, NewLine(depth));
    CleanConcat(open + body + NewLine(depth), close);
  }

  lemma {:induction false} SpacesPlain(n: nat)
    ensures '\\' !in Spaces(n)
  {
    if n > 0 {
      SpacesPlain(n - 1);
    }
  }

  lemma NewLineClean(depth: nat)
    ensures Clean(NewLine(depth))
  {
    SpacesPlain(2 * depth);
    NoBackslashClean(NewLine(depth));
  }

  lemma {:induction false} PrintItemsClean(items: seq<Json>, depth: nat)
    requires forall i :: 0 <= i < |items| ==> LiteralsOk(items[i])
    ensures Clean(PrintItems(items, depth))
    decreases items, 0
  {
    if items != [] {
      PrintClean(items[0], depth);
      PrintItemsClean(items[1..], depth);
      NewLineClean(depth);
      var comma := if |items| == 1 then "" else ",";
      NoBackslashClean(comma);
      hide Print; hide PrintItems; hide NewLine; hide Clean;
      CleanConcat(NewLine(depth), Print(items[0], depth));
      CleanConcat(NewLine(depth) + Print(items[0], depth), comma);
      CleanConcat(NewLine(depth) + Print(items[0], depth) + comma, PrintItems(items[1..], depth));
      PrintItemsUnfold(items, depth);
    }
  }

  lemma PrintItemsUnfold(items: seq<Json>, depth: nat)
    requires items != []
    ensures PrintItems(items, depth)
         == NewLine(depth) + Print(items[0], depth) + (if |items| == 1 then "" else ",") + PrintItems(items[1..], depth)
  {
  }

  lemma {:induction false} PrintFieldsClean(fields: seq<Field>, depth: nat)
    requires forall i :: 0 <= i < |fields| ==> FieldOk(fields[i])
    ensures Clean(PrintFields(fields, depth))
    decreases fields, 0
  {
    if fields != [] {
      FieldTextClean(fields[0], depth);
      PrintFieldsClean(fields[1..], depth);
      NewLineClean(depth);
      var comma := if |fields| == 1 then "" else ",";
      NoBackslashClean(comma);
      hide FieldText; hide PrintFields; hide NewLine; hide Clean;
      CleanConcat(NewLine(depth), FieldText(fields[0], depth));
      CleanConcat(NewLine(depth) + FieldText(fields[0], depth), comma);
      CleanConcat(NewLine(depth) + FieldText(fields[0], depth) + comma, PrintFields(fields[1..], depth));
      PrintFieldsUnfold(fields, depth);
    }
  }

  lemma PrintFieldsUnfold(fields: seq<Field>, depth: nat)
    requires fields != []
    ensures PrintFields(fields, depth)
         == NewLine(depth) + FieldText(fields[0], depth)
            + (if |fields| == 1 then "" else ",") + PrintFields(fields[1..], depth)
  {
  }

  lemma {:induction false} FieldTextClean(field: Field, depth: nat)
    requires FieldOk(field)
    ensures Clean(FieldText(field, depth))
    decreases field
  {
    PrintClean(field.value, depth);
    QuoteClean(field.key);
    NoBackslashClean(": ");
    CleanConcat(Quote(field.key), ": ");
    CleanConcat(Quote(field.key) + ": ", Print(field.value, depth));
  }

  lemma DumpsClean(j: Json)
    requires LiteralsOk(j)
    ensures Clean(Dumps(j))
  {
    PrintClean(j, 0);
    NoBackslashClean("\n");
    CleanConcat(Print(j, 0), "\n");
  }

  /** In clean text, a Unicode escape that is not itself preceded by a backslash
      begins with two zeros. */
  lemma {:induction false} CleanEscape(s: string, i: nat)
    requires Clean(s) && i + 3 < |s| && s[i] == '\\' && s[i + 1] == 'u'
    requires i == 0 || s[i - 1] != '\\'
    ensures s[i + 2] == '0' && s[i + 3] == '0'
    decreases i
  {
    if i > 0 {
      var n := if s[0] != '\\' then 1 else if s[1] != 'u' then 2 else 6;
      assert i >= n;
      CleanEscape(s[n..], i - n);
    }
  }
}
