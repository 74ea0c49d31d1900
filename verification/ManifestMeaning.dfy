/**
 What a renewed manifest means (prepare-stable-v2-refresh.py): its text may differ
 from a fresh printing, but it always reads back as the updated manifest.
 */
module ManifestMeaning {
  import opened Common
  import opened CanonicalJson
  import opened JsonReader
  import opened ManifestRefresh

  lemma AsciiValueReads(value: string, rest: string)
    ensures Value("\"" + EscapedAscii(value) + "\"" + rest) == Some(Taken(Str(value), rest))
  {
    hide Text, EscapedAscii;
    AsciiReads(value, rest);
    var s := "\"" + EscapedAscii(value) + "\"" + rest;
    assert s[1..] == EscapedAscii(value) + ("\"" + rest);
  }

  /** A spliced field spells the field with the timestamp in it. */
  lemma SplicedFieldSpells(name: string, value: string, depth: nat)
    ensures Spells(Literal(name, EscapedAscii(value)), Field(name, Str(value)), depth)
  {
    hide Value, Entry, EscapedAscii, Quote;
    var spliced := Literal(name, EscapedAscii(value));
    forall rest: string | Stops(rest)
      ensures Entry(FieldText(spliced, depth) + rest) == Some(Taken(Field(name, Str(value)), rest))
    {
      AsciiValueReads(value, rest);
      EntryReads(name, "\"" + EscapedAscii(value) + "\"", Str(value), rest);
    }
  }

  lemma ManifestReadsAs(fields: seq<Field>, meant: seq<Field>)
    requires |fields| == |meant| > 0 && forall i :: 0 <= i < |fields| ==> Spells(fields[i], meant[i], 1)
    ensures Loads(Dumps(Obj(fields))) == Some(Obj(meant))
  {
    hide Loads, Print, Value, Spells;
    ObjReads(fields, meant, 0, "\n");
    FileReads(Print(Obj(fields), 0), Obj(meant));
  }

  /**
   Whatever timestamps are accepted, ASCII or not, the renewed text reads back as the
   source manifest with the two timestamps replaced, and nothing else changed.
   */
  lemma RenewalReadsBack(lib: Library, source: string, fields: seq<Field>, published: string, valid: string)
    requires Renewable(lib, source, fields) && Numeric(Obj(fields)) && Renew(lib, source, published, valid).Ok?
    ensures Loads(source) == Some(Obj(fields))
    ensures Loads(Renew(lib, source, published, valid).value) == Some(Obj(Renewed(fields, published, valid)))
  {
    hide Loads, Dumps, Renew, Spells, LiteralsOk, TimeShape, EscapedAscii, Literal;
    DumpsReadsBack(Obj(fields));
    RenewOutput(lib, source, fields, published, valid);
    var at, until := IndexOf(fields, PUBLISHED), IndexOf(fields, VALID);
    var spliced := fields[at := Literal(PUBLISHED, EscapedAscii(published))][until := Literal(VALID, EscapedAscii(valid))];
    var meant := Renewed(fields, published, valid);
    forall i | 0 <= i < |fields|
      ensures Spells(spliced[i], meant[i], 1)
    {
      if i == until {
        SplicedFieldSpells(VALID, valid, 1);
      } else if i == at {
        SplicedFieldSpells(PUBLISHED, published, 1);
      } else {
        assert NumericField(fields[i]);
        FieldReads(fields[i], 1);
      }
    }
    ManifestReadsAs(spliced, meant);
  }
}
