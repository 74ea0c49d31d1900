/**
 A renewal that is accepted and yet does not print canonically: the pattern for
 timestamps (prepare-stable-v2-refresh.py:123) admits every decimal digit, and one
 beyond ASCII is escaped by the splice and not by the canonical printing.
 */
module ManifestExample {
  import opened Common
  import opened CanonicalJson
  import opened TextSplice
  import opened ManifestRefresh

  const OLD_PUBLISHED: string := "2026-01-01T00:00:00Z"
  const OLD_VALID: string := "2026-01-08T00:00:00Z"
  const NEW_VALID: string := "2026-01-09T00:00:00Z"

  /** 2026-01-02, its first digit being the Arabic-Indic two. */
  const NEW_PUBLISHED: string := "\U{0662}026-01-02T00:00:00Z"

  const FIELDS: seq<Field> := [Field(PUBLISHED, Str(OLD_PUBLISHED)), Field(VALID, Str(OLD_VALID))]

  function Source(): string {
    Dumps(Obj(FIELDS))
  }

  const DAY: int := 24 * 60 * 60

  /** The four timestamps' instants, counted from the first. */
  function Instant(s: string): Option<int> {
    if s == OLD_PUBLISHED then Some(0)
    else if s == NEW_PUBLISHED then Some(DAY)
    else if s == OLD_VALID then Some(7 * DAY)
    else if s == NEW_VALID then Some(8 * DAY)
    else None
  }

  function Lib(): Library {
    Library(s => if s == Source() then Some(Obj(FIELDS)) else None, Instant, c => c as int == 0x662)
  }

  /** The shape of a timestamp, character by character. */
  lemma ShapeOf(s: string)
    requires |s| == 20 && s[4] == s[7] == '-' && s[10] == 'T' && s[13] == s[16] == ':' && s[19] == 'Z'
    requires forall i :: 0 <= i < 20 && i != 4 && i != 7 && i != 10 && i != 13 && i != 16 && i != 19 ==> Digit(Lib(), s[i])
    ensures TimeShape(Lib(), s)
  {
    hide Digit;
    forall i | 0 <= i < 20
      ensures if TIME_SHAPE[i] == 'd' then Digit(Lib(), s[i]) else s[i] == TIME_SHAPE[i]
    {
      ShapeAt(i);
    }
  }

  lemma ShapeAt(i: nat)
    requires i < 20
    ensures TIME_SHAPE[i] == if i == 4 || i == 7 then '-' else if i == 10 then 'T' else if i == 13 || i == 16 then ':'
                             else if i == 19 then 'Z' else 'd'
  {
    var s := TIME_SHAPE;
    assert s[0] == s[1] == s[2] == s[3] == s[5] == s[6] == s[8] == s[9] == 'd';
    assert s[11] == s[12] == s[14] == s[15] == s[17] == s[18] == 'd';
  }

  lemma OldShapes()
    ensures TimeShape(Lib(), OLD_PUBLISHED) && TimeShape(Lib(), OLD_VALID)
  {
    hide TimeShape;
    ShapeOf(OLD_PUBLISHED);
    ShapeOf(OLD_VALID);
  }

  lemma NewShapes()
    ensures TimeShape(Lib(), NEW_PUBLISHED) && TimeShape(Lib(), NEW_VALID) && !Ascii(NEW_PUBLISHED)
  {
    hide TimeShape;
    assert NEW_PUBLISHED[0] as int == 0x662;
    ShapeOf(NEW_PUBLISHED);
    ShapeOf(NEW_VALID);
  }

  lemma OldAscii()
    ensures Ascii(OLD_PUBLISHED) && Ascii(OLD_VALID)
  {
  }

  lemma DifferentTimes()
    ensures NEW_PUBLISHED != OLD_PUBLISHED && OLD_VALID != OLD_PUBLISHED && OLD_VALID != NEW_PUBLISHED
    ensures NEW_VALID != OLD_PUBLISHED && NEW_VALID != NEW_PUBLISHED && NEW_VALID != OLD_VALID
  {
    assert NEW_PUBLISHED[0] != OLD_PUBLISHED[0] && NEW_PUBLISHED[0] != OLD_VALID[0] && NEW_PUBLISHED[0] != NEW_VALID[0];
    assert OLD_PUBLISHED[9] != OLD_VALID[9] && OLD_PUBLISHED[9] != NEW_VALID[9] && OLD_VALID[9] != NEW_VALID[9];
  }

  lemma Keys()
    ensures IndexOf(FIELDS, PUBLISHED) == 0 && IndexOf(FIELDS, VALID) == 1
    ensures StringField(FIELDS, PUBLISHED) == Some(OLD_PUBLISHED) && StringField(FIELDS, VALID) == Some(OLD_VALID)
  {
    assert PUBLISHED[0] != VALID[0];
    assert FIELDS[1..][0].key == VALID && IndexOf(FIELDS[1..], VALID) == 0;
  }

  /** A pair that overlaps field `i` of a printed manifest is that field's own. */
  lemma OverlapIsOwn(fields: seq<Field>, i: nat, name: string, value: string, other: string, otherValue: string, j: int)
    requires PrintsAs(fields, i, name, value)
    requires NameOk(name) && ValueOk(value) && NameOk(other) && ValueOk(otherValue)
    requires OccursAt(Dumps(Obj(fields)), Pair(other, otherValue), j)
    requires j < Position(fields, i) + |Pair(name, value)| && Position(fields, i) < j + |Pair(other, otherValue)|
    ensures j == Position(fields, i) && other[0] == name[0]
  {
    hide Before, After, Dumps, Pair, OccursAt, NameOk, ValueOk;
    SplitDumps(fields, i);
    FieldSurroundings(fields, i);
    NoOverlap("{" + Before(fields, i), name, value, After(fields, i) + "\n}\n", other, otherValue, j);
  }

  /** Where the two fields of a two-field file stand, and how long the file is. */
  lemma TwoFieldLayout(fields: seq<Field>, p: string, v: string)
    requires |fields| == 2 && PrintsAs(fields, 0, PUBLISHED, p) && PrintsAs(fields, 1, VALID, v)
    ensures Position(fields, 0) == 4 && Position(fields, 1) == 8 + |Pair(PUBLISHED, p)|
    ensures |Dumps(Obj(fields))| == Position(fields, 1) + |Pair(VALID, v)| + 3
  {
    hide FieldText, Pair, Dumps;
    SplitDumps(fields, 1);
    assert fields[1..][0] == fields[1] && fields[2..] == [];
    assert Before(fields[1..], 0) == "\n  ";
  }

  /** In a two-field file each pair stands once. */
  lemma TwoFieldsStandOnce(fields: seq<Field>, p: string, v: string)
    requires |fields| == 2 && PrintsAs(fields, 0, PUBLISHED, p) && PrintsAs(fields, 1, VALID, v) && ValueOk(p) && ValueOk(v)
    ensures OnlyAt(Dumps(Obj(fields)), Pair(PUBLISHED, p), Position(fields, 0))
    ensures OnlyAt(Dumps(Obj(fields)), Pair(VALID, v), Position(fields, 1))
  {
    hide Dumps, PrintsAs, Position, ValueOk, NameOk, FieldText;
    NamesPlain();
    TwoFieldLayout(fields, p, v);
    FieldOccurs(fields, 0, PUBLISHED, p);
    FieldOccurs(fields, 1, VALID, v);
    forall j | OccursAt(Dumps(Obj(fields)), Pair(PUBLISHED, p), j)
      ensures j == Position(fields, 0)
    {
      StandsHere(fields, p, v, PUBLISHED, p, j);
    }
    forall j | OccursAt(Dumps(Obj(fields)), Pair(VALID, v), j)
      ensures j == Position(fields, 1)
    {
      StandsHere(fields, p, v, VALID, v, j);
    }
  }

  lemma StandsHere(fields: seq<Field>, p: string, v: string, other: string, otherValue: string, j: int)
    requires |fields| == 2 && PrintsAs(fields, 0, PUBLISHED, p) && PrintsAs(fields, 1, VALID, v) && ValueOk(p) && ValueOk(v)
    requires (other == PUBLISHED && otherValue == p) || (other == VALID && otherValue == v)
    requires OccursAt(Dumps(Obj(fields)), Pair(other, otherValue), j)
    ensures j == if other == PUBLISHED then Position(fields, 0) else Position(fields, 1)
  {
    hide Dumps, PrintsAs, Position, ValueOk, NameOk, FieldText;
    NamesPlain();
    TwoFieldLayout(fields, p, v);
    assert PUBLISHED[0] == 'p' && VALID[0] == 'v';
    var at0, at1 := Position(fields, 0), Position(fields, 1);
    var n := |Pair(other, otherValue)|;
    if j < at0 + |Pair(PUBLISHED, p)| && at0 < j + n {
      OverlapIsOwn(fields, 0, PUBLISHED, p, other, otherValue, j);
    } else if j < at1 + |Pair(VALID, v)| && at1 < j + n {
      OverlapIsOwn(fields, 1, VALID, v, other, otherValue, j);
    }
  }

  /** The source's two time fields, as the splice looks for them. */
  lemma SourceFieldsStandOnce()
    ensures StandsOnce(Source(), FIELDS, PUBLISHED) && StandsOnce(Source(), FIELDS, VALID)
  {
    hide Dumps, TimeShape, Pair, FieldText, EscapedAscii, EscapedRaw, StringField, IndexOf, OnlyAt, ValueOk;
    Keys();
    OldShapes();
    OldAscii();
    NamesPlain();
    TimeShapeText(Lib(), OLD_PUBLISHED);
    TimeShapeText(Lib(), OLD_VALID);
    EscapedTime(OLD_PUBLISHED);
    EscapedTime(OLD_VALID);
    LiteralText(PUBLISHED, OLD_PUBLISHED);
    LiteralText(VALID, OLD_VALID);
    TwoFieldsStandOnce(FIELDS, OLD_PUBLISHED, OLD_VALID);
    TimeFieldText(PUBLISHED, OLD_PUBLISHED);
    TimeFieldText(VALID, OLD_VALID);
  }

  /** The renewal of a sound manifest with a wide digit is accepted and does not print canonically. */
  lemma WideDigitIsAcceptedAndNotCanonical()
    ensures Renewable(Lib(), Source(), FIELDS)
    ensures var renewed := Renew(Lib(), Source(), NEW_PUBLISHED, NEW_VALID);
            renewed.Ok? && renewed.value != Dumps(Obj(Renewed(FIELDS, NEW_PUBLISHED, NEW_VALID)))
  {
    hide Dumps, TimeShape, StandsOnce, StringField, IndexOf, Renew, Ascii;
    Keys();
    OldShapes();
    NewShapes();
    DifferentTimes();
    SourceFieldsStandOnce();
    AcceptedIffUnique(Lib(), Source(), FIELDS, NEW_PUBLISHED, NEW_VALID);
    SpliceIsReprintIff(Lib(), Source(), FIELDS, NEW_PUBLISHED, NEW_VALID);
  }
}
