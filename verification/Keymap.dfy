/**
 Resolving configured key bindings (commands.rs:309-386): sequences are normalised,
 no two are the same, and every incomplete prefix of a chord that is not itself a
 binding is reported so that it can be held back.
 */
module Keymap {
  import opened Common
  import opened Text

  datatype Descriptor = Descriptor(id: string, command: nat, defaults: seq<string>)

  /** The configured actions, in the order of their ids. */
  datatype Configured = Configured(id: string, sequences: seq<string>)

  datatype Binding = Binding(command: nat, sequence: string)

  datatype Resolved = Resolved(bindings: seq<Binding>, chordPrefixes: seq<string>)

  datatype ConfigError =
    | UnknownAction(id: string)
    | BlankSequence
    | InvalidStroke(stroke: string, sequence: string)
    | RepeatedBinding(id: string, sequence: string)
    | SharedBinding(sequence: string, existing: string, id: string)

  // ------------------------------------------------------------ strokes of a sequence

  predicate IsStroke(word: string) {
    word != "" && forall i :: 0 <= i < |word| ==> !Whitespace(word[i])
  }

  predicate AllStrokes(words: seq<string>) {
    forall i :: 0 <= i < |words| ==> IsStroke(words[i])
  }

  function WordOf(word: string): seq<string> {
    if word == "" then [] else [word]
  }

  /** `split_whitespace` of `s` after `word` has been read. */
  function SplitFrom(s: string, word: string): seq<string> {
    if s == "" then WordOf(word)
    else if Whitespace(s[0]) then WordOf(word) + SplitFrom(s[1..], "")
    else SplitFrom(s[1..], word + [s[0]])
  }

  function Strokes(s: string): seq<string> {
    SplitFrom(s, "")
  }

  function Join(words: seq<string>): string {
    if words == [] then ""
    else if |words| == 1 then words[0]
    else words[0] + " " + Join(words[1..])
  }

  lemma {:induction false} SplitAreStrokes(s: string, word: string)
    requires forall i :: 0 <= i < |word| ==> !Whitespace(word[i])
    ensures AllStrokes(SplitFrom(s, word))
  {
    if s != "" {
      if Whitespace(s[0]) {
        SplitAreStrokes(s[1..], "");
      } else {
        SplitAreStrokes(s[1..], word + [s[0]]);
      }
    }
  }

  lemma {:induction false} SplitReads(s: string, rest: string, word: string)
    requires forall i :: 0 <= i < |s| ==> !Whitespace(s[i])
    ensures SplitFrom(s + rest, word) == SplitFrom(rest, word + s)
  {
    if s == "" {
      assert s + rest == rest && word + s == word;
    } else {
      assert (s + rest)[1..] == s[1..] + rest;
      SplitReads(s[1..], rest, word + [s[0]]);
      assert word + [s[0]] + s[1..] == word + s;
    }
  }

  /** Strokes joined with blanks split into the same strokes. */
  lemma {:induction false} SplitJoined(words: seq<string>)
    requires AllStrokes(words)
    ensures Strokes(Join(words)) == words
  {
    if |words| == 1 {
      assert words[0] + "" == words[0] && "" + words[0] == words[0];
      SplitReads(words[0], "", "");
    } else if |words| > 1 {
      var rest := words[1..];
      SplitJoined(rest);
      var tail := " " + Join(rest);
      assert Join(words) == words[0] + tail;
      SplitReads(words[0], tail, "");
      assert "" + words[0] == words[0];
      assert tail[1..] == Join(rest) && Whitespace(tail[0]);
      assert [words[0]] + rest == words;
    }
  }

  lemma JoinedBlankIff(words: seq<string>)
    requires AllStrokes(words)
    ensures Join(words) == "" <==> words == []
  {
  }

  /** The first `n` strokes of a sequence, as a sequence. */
  function PrefixOf(sequence: string, n: nat): string
    requires n <= |Strokes(sequence)|
  {
    Join(Strokes(sequence)[..n])
  }

  lemma StrokesOfPrefix(sequence: string, n: nat)
    requires n <= |Strokes(sequence)|
    ensures Strokes(PrefixOf(sequence, n)) == Strokes(sequence)[..n]
  {
    SplitAreStrokes(sequence, "");
    SplitJoined(Strokes(sequence)[..n]);
  }

  // ------------------------------------------------------------ normalising

  function FirstInvalid(strokes: seq<string>, parses: string -> bool): Option<string> {
    if strokes == [] then None
    else if !parses(strokes[0]) then Some(strokes[0])
    else FirstInvalid(strokes[1..], parses)
  }

  function Normalize(raw: string, parses: string -> bool): Result<string, ConfigError> {
    var sequence := Join(Strokes(raw));
    if sequence == "" then Err(BlankSequence)
    else
      var invalid := FirstInvalid(Strokes(sequence), parses);
      if invalid.Some? then Err(InvalidStroke(invalid.value, sequence)) else Ok(sequence)
  }

  lemma {:induction false} NoneInvalidIff(strokes: seq<string>, parses: string -> bool)
    ensures FirstInvalid(strokes, parses).None? <==> forall i :: 0 <= i < |strokes| ==> parses(strokes[i])
  {
    if strokes != [] {
      NoneInvalidIff(strokes[1..], parses);
      assert forall i :: 1 <= i < |strokes| ==> strokes[i] == strokes[1..][i - 1];
    }
  }

  /** Normalising keeps the strokes, and succeeds exactly if there are some and all parse. */
  lemma NormalizeKeepsStrokes(raw: string, parses: string -> bool)
    ensures Normalize(raw, parses).Ok?
            <==> (Strokes(raw) != [] && forall i :: 0 <= i < |Strokes(raw)| ==> parses(Strokes(raw)[i]))
    ensures Normalize(raw, parses).Ok? ==>
              var s := Normalize(raw, parses).value;
              Strokes(s) == Strokes(raw) && Join(Strokes(s)) == s && Normalize(s, parses) == Ok(s)
  {
    hide Join, SplitFrom, FirstInvalid;
    SplitAreStrokes(raw, "");
    SplitJoined(Strokes(raw));
    JoinedBlankIff(Strokes(raw));
    NoneInvalidIff(Strokes(raw), parses);
  }

  /** Two raw sequences are the same binding exactly when they have the same strokes. */
  lemma NormalizedSameIff(a: string, b: string, parses: string -> bool)
    requires Normalize(a, parses).Ok? && Normalize(b, parses).Ok?
    ensures Normalize(a, parses) == Normalize(b, parses) <==> Strokes(a) == Strokes(b)
  {
    hide Normalize, Join, Strokes;
    NormalizeKeepsStrokes(a, parses);
    NormalizeKeepsStrokes(b, parses);
    SameJoin(Strokes(a), Strokes(b));
    assert Normalize(a, parses).value == Join(Strokes(Normalize(a, parses).value));
    assert Normalize(b, parses).value == Join(Strokes(Normalize(b, parses).value));
  }

  lemma SameJoin(a: seq<string>, b: seq<string>)
    ensures a == b ==> Join(a) == Join(b)
  {
  }

  // ------------------------------------------------------------ strings in order

  predicate Less(a: string, b: string) {
    b != "" && (a == "" || a[0] < b[0] || (a[0] == b[0] && Less(a[1..], b[1..])))
  }

  lemma {:induction false} LessTransitive(a: string, b: string, c: string)
    requires Less(a, b) && Less(b, c)
    ensures Less(a, c)
  {
    if a != "" && b != "" && a[0] == b[0] == c[0] {
      LessTransitive(a[1..], b[1..], c[1..]);
    }
  }

  lemma {:induction false} LessTotal(a: string, b: string)
    ensures Less(a, b) || a == b || Less(b, a)
    ensures !(Less(a, b) && Less(b, a)) && !Less(a, a)
  {
    if a != "" {
      LessTotal(a[1..], a[1..]);
    }
    if a != "" && b != "" && a[0] == b[0] {
      LessTotal(a[1..], b[1..]);
      assert a == [a[0]] + a[1..] && b == [b[0]] + b[1..];
    }
  }

  /** Strictly ascending: what an ordered set of strings yields. */
  predicate Ascending(s: seq<string>) {
    forall i, j :: 0 <= i < j < |s| ==> Less(s[i], s[j])
  }

  function Insert(sorted: seq<string>, x: string): seq<string> {
    if sorted == [] then [x]
    else if sorted[0] == x then sorted
    else if Less(x, sorted[0]) then [x] + sorted
    else [sorted[0]] + Insert(sorted[1..], x)
  }

  lemma {:induction false} InsertMembers(sorted: seq<string>, x: string)
    ensures forall y :: y in Insert(sorted, x) <==> y in sorted || y == x
  {
    if sorted != [] && sorted[0] != x && !Less(x, sorted[0]) {
      InsertMembers(sorted[1..], x);
      assert sorted == [sorted[0]] + sorted[1..];
    }
  }

  lemma {:induction false} InsertAscends(sorted: seq<string>, x: string)
    requires Ascending(sorted)
    ensures Ascending(Insert(sorted, x))
  {
    hide Less;
    if sorted == [] || sorted[0] == x {
    } else if Less(x, sorted[0]) {
      forall j | 0 <= j < |sorted|
        ensures Less(x, sorted[j])
      {
        if j > 0 {
          LessTransitive(x, sorted[0], sorted[j]);
        }
      }
    } else {
      LessTotal(x, sorted[0]);
      var rest := Insert(sorted[1..], x);
      InsertAscends(sorted[1..], x);
      InsertMembers(sorted[1..], x);
      forall j | 0 <= j < |rest|
        ensures Less(sorted[0], rest[j])
      {
        assert rest[j] in rest;
        if rest[j] != x {
          var k :| 0 <= k < |sorted[1..]| && sorted[1..][k] == rest[j];
          assert sorted[k + 1] == rest[j];
        }
      }
    }
  }

  // ------------------------------------------------------------ what is to be bound

  /** One sequence to bind: for which action, which command, and as it was written. */
  datatype Wish = Wish(id: string, command: nat, raw: string)

  function Lookup(configured: seq<Configured>, id: string): Option<seq<string>> {
    if configured == [] then None
    else if configured[0].id == id then Some(configured[0].sequences)
    else Lookup(configured[1..], id)
  }

  function SequencesFor(d: Descriptor, configured: seq<Configured>): seq<string> {
    Lookup(configured, d.id).GetOr(d.defaults)
  }

  function WishesFor(d: Descriptor, sequences: seq<string>): seq<Wish> {
    seq(|sequences|, i requires 0 <= i < |sequences| => Wish(d.id, d.command, sequences[i]))
  }

  function Wishes(descriptors: seq<Descriptor>, configured: seq<Configured>): seq<Wish> {
    if descriptors == [] then []
    else
      var last := descriptors[|descriptors| - 1];
      Wishes(descriptors[..|descriptors| - 1], configured) + WishesFor(last, SequencesFor(last, configured))
  }

  lemma {:induction false} WishesAt(descriptors: seq<Descriptor>, configured: seq<Configured>, i: nat)
    requires i < |descriptors|
    ensures var all, start := Wishes(descriptors, configured), |Wishes(descriptors[..i], configured)|;
            var own := WishesFor(descriptors[i], SequencesFor(descriptors[i], configured));
            && |Wishes(descriptors[..i + 1], configured)| == start + |own| <= |all|
            && all[start..start + |own|] == own
  {
    hide WishesFor, SequencesFor;
    assert descriptors[..i + 1][..i] == descriptors[..i];
    if i == |descriptors| - 1 {
      assert descriptors[..i + 1] == descriptors;
    } else {
      var front := descriptors[..|descriptors| - 1];
      WishesAt(front, configured, i);
      assert front[..i] == descriptors[..i] && front[..i + 1] == descriptors[..i + 1];
    }
  }

  /** Entry `j` is the one configured for this action. */
  ghost predicate ConfiguredAt(configured: seq<Configured>, id: string, j: nat) {
    j < |configured| && configured[j].id == id && forall k :: 0 <= k < j ==> configured[k].id != id
  }

  lemma {:induction false} LookupIs(configured: seq<Configured>, id: string)
    ensures match Lookup(configured, id)
      case None => forall k :: 0 <= k < |configured| ==> configured[k].id != id
      case Some(sequences) => exists j: nat :: ConfiguredAt(configured, id, j) && configured[j].sequences == sequences
  {
    if configured != [] {
      LookupIs(configured[1..], id);
      assert forall k :: 0 < k < |configured| ==> configured[k] == configured[1..][k - 1];
      if configured[0].id == id {
        assert ConfiguredAt(configured, id, 0);
      } else if Lookup(configured[1..], id).Some? {
        var j: nat :| ConfiguredAt(configured[1..], id, j) && configured[1..][j].sequences == Lookup(configured[1..], id).value;
        assert ConfiguredAt(configured, id, j + 1);
      }
    }
  }

  /** What is configured for an action takes the place of all its defaults; what is not
      configured keeps them. */
  ghost predicate Asked(d: Descriptor, configured: seq<Configured>, raw: string) {
    if exists j: nat :: ConfiguredAt(configured, d.id, j)
    then exists j: nat :: ConfiguredAt(configured, d.id, j) && raw in configured[j].sequences
    else raw in d.defaults
  }

  lemma AskedIff(d: Descriptor, configured: seq<Configured>, raw: string)
    ensures raw in SequencesFor(d, configured) <==> Asked(d, configured, raw)
  {
    LookupIs(configured, d.id);
    assert forall i: nat, j: nat :: ConfiguredAt(configured, d.id, i) && ConfiguredAt(configured, d.id, j) ==> i == j;
  }

  /** A sequence is to be bound to a command exactly if it is asked for by the action
      that has it. */
  lemma {:induction false} WishedIff(descriptors: seq<Descriptor>, configured: seq<Configured>, wish: Wish)
    ensures wish in Wishes(descriptors, configured) <==>
      exists i :: 0 <= i < |descriptors| && descriptors[i].id == wish.id && descriptors[i].command == wish.command
        && Asked(descriptors[i], configured, wish.raw)
  {
    hide SequencesFor, Asked;
    if descriptors != [] {
      var n := |descriptors| - 1;
      var last := descriptors[n];
      WishedIff(descriptors[..n], configured, wish);
      AskedIff(last, configured, wish.raw);
      assert forall i :: 0 <= i < n ==> descriptors[..n][i] == descriptors[i];
      var own := SequencesFor(last, configured);
      assert wish in WishesFor(last, own) <==> last.id == wish.id && last.command == wish.command && wish.raw in own by {
        if last.id == wish.id && last.command == wish.command && wish.raw in own {
          var k :| 0 <= k < |own| && own[k] == wish.raw;
          assert WishesFor(last, own)[k] == wish;
        }
      }
    }
  }

  predicate Known(descriptors: seq<Descriptor>, id: string) {
    exists i :: 0 <= i < |descriptors| && descriptors[i].id == id
  }

  predicate AllKnown(descriptors: seq<Descriptor>, configured: seq<Configured>) {
    forall i :: 0 <= i < |configured| ==> Known(descriptors, configured[i].id)
  }

  predicate AllNormalize(wishes: seq<Wish>, parses: string -> bool) {
    forall i :: 0 <= i < |wishes| ==> Normalize(wishes[i].raw, parses).Ok?
  }

  ghost predicate Clash(wishes: seq<Wish>, parses: string -> bool, i: nat, j: nat) {
    i < j < |wishes| && Normalize(wishes[i].raw, parses).Ok?
    && Normalize(wishes[i].raw, parses) == Normalize(wishes[j].raw, parses)
  }

  ghost predicate NoClash(wishes: seq<Wish>, parses: string -> bool) {
    forall i: nat, j: nat :: !Clash(wishes, parses, i, j)
  }

  /** The bindings are the wishes, in order, normalised. */
  predicate Fulfil(wishes: seq<Wish>, parses: string -> bool, bindings: seq<Binding>) {
    |bindings| <= |wishes|
    && forall k :: 0 <= k < |bindings| ==>
         Normalize(wishes[k].raw, parses) == Ok(bindings[k].sequence) && bindings[k].command == wishes[k].command
  }

  predicate Bound(bindings: seq<Binding>, sequence: string) {
    exists k :: 0 <= k < |bindings| && bindings[k].sequence == sequence
  }

  predicate Distinct(bindings: seq<Binding>) {
    forall i, j :: 0 <= i < j < |bindings| ==> bindings[i].sequence != bindings[j].sequence
  }

  /** A nonempty, proper stroke prefix of some binding, and not a binding itself. */
  predicate IsChordPrefix(bindings: seq<Binding>, prefix: string) {
    !Bound(bindings, prefix)
    && exists k, n :: 0 <= k < |bindings| && 0 < n < |Strokes(bindings[k].sequence)| && PrefixOf(bindings[k].sequence, n) == prefix
  }

  /** An error names something that is wrong. */
  ghost predicate Justified(e: ConfigError, descriptors: seq<Descriptor>, configured: seq<Configured>, parses: string -> bool) {
    var wishes := Wishes(descriptors, configured);
    match e
    case UnknownAction(id) => !Known(descriptors, id) && exists i :: 0 <= i < |configured| && configured[i].id == id
    case BlankSequence => exists k :: 0 <= k < |wishes| && Strokes(wishes[k].raw) == []
    case InvalidStroke(stroke, sequence) =>
      exists k :: 0 <= k < |wishes| && Normalize(wishes[k].raw, parses) == Err(e)
    case RepeatedBinding(id, sequence) =>
      exists i: nat, j: nat :: Clash(wishes, parses, i, j) && wishes[i].id == wishes[j].id == id
                               && Normalize(wishes[j].raw, parses) == Ok(sequence)
    case SharedBinding(sequence, existing, id) =>
      exists i: nat, j: nat :: Clash(wishes, parses, i, j) && wishes[i].id == existing && wishes[j].id == id
                     && Normalize(wishes[j].raw, parses) == Ok(sequence)
                     && (existing != id || SameIdTwice(descriptors))
  }

  /** Two commands of the table have one id, which no table of this program has. */
  ghost predicate SameIdTwice(descriptors: seq<Descriptor>) {
    exists i, j :: 0 <= i < j < |descriptors| && descriptors[i].id == descriptors[j].id
  }

  // ------------------------------------------------------------ the loops

  /** Every binding so far is a wish come true, and its sequence is taken by that wish's action. */
  ghost predicate Booked(wishes: seq<Wish>, parses: string -> bool, bindings: seq<Binding>, occupied: map<string, string>) {
    Fulfil(wishes, parses, bindings) && Distinct(bindings)
    && (forall k :: 0 <= k < |bindings| ==>
          bindings[k].sequence in occupied && occupied[bindings[k].sequence] == wishes[k].id)
    && (forall s :: s in occupied ==> Bound(bindings, s))
  }

  lemma NothingBooked(wishes: seq<Wish>, parses: string -> bool)
    ensures Booked(wishes, parses, [], map[])
  {
  }

  lemma Book(wishes: seq<Wish>, parses: string -> bool, bindings: seq<Binding>, occupied: map<string, string>,
             sequence: string)
    requires Booked(wishes, parses, bindings, occupied) && |bindings| < |wishes| && sequence !in occupied
    requires Normalize(wishes[|bindings|].raw, parses) == Ok(sequence)
    ensures var wish := wishes[|bindings|];
            Booked(wishes, parses, bindings + [Binding(wish.command, sequence)], occupied[sequence := wish.id])
  {
    hide Normalize;
    BoundMore(bindings, Binding(wishes[|bindings|].command, sequence));
  }

  lemma BoundMore(bindings: seq<Binding>, b: Binding)
    ensures forall s :: Bound(bindings + [b], s) <==> Bound(bindings, s) || s == b.sequence
  {
    var all := bindings + [b];
    assert all[|bindings|] == b;
    forall s | Bound(bindings, s)
      ensures Bound(all, s)
    {
      var k :| 0 <= k < |bindings| && bindings[k].sequence == s;
      assert all[k].sequence == s;
    }
  }

  lemma Taken(wishes: seq<Wish>, parses: string -> bool, bindings: seq<Binding>, occupied: map<string, string>,
              sequence: string)
    requires Booked(wishes, parses, bindings, occupied) && |bindings| < |wishes| && sequence in occupied
    requires Normalize(wishes[|bindings|].raw, parses) == Ok(sequence)
    ensures exists i: nat :: Clash(wishes, parses, i, |bindings|) && wishes[i].id == occupied[sequence]
  {
    hide Normalize;
    var i :| 0 <= i < |bindings| && bindings[i].sequence == sequence;
    assert Clash(wishes, parses, i, |bindings|);
  }

  /** Every sequence taken for one action is a failure of the whole keymap, either way it is reported. */
  lemma TakenIsWrong(descriptors: seq<Descriptor>, configured: seq<Configured>, parses: string -> bool,
                     bindings: seq<Binding>, occupied: map<string, string>, sequence: string)
    requires var wishes := Wishes(descriptors, configured);
             && Booked(wishes, parses, bindings, occupied) && |bindings| < |wishes| && sequence in occupied
             && Normalize(wishes[|bindings|].raw, parses) == Ok(sequence)
    ensures var wishes := Wishes(descriptors, configured); var id := wishes[|bindings|].id;
            && !NoClash(wishes, parses)
            && (occupied[sequence] == id ==> Justified(RepeatedBinding(id, sequence), descriptors, configured, parses))
            && (occupied[sequence] != id || SameIdTwice(descriptors) ==>
                  Justified(SharedBinding(sequence, occupied[sequence], id), descriptors, configured, parses))
  {
    hide Normalize, Wishes, Booked;
    Taken(Wishes(descriptors, configured), parses, bindings, occupied, sequence);
  }

  lemma InvalidIsWrong(descriptors: seq<Descriptor>, configured: seq<Configured>, parses: string -> bool, at: nat)
    requires at < |Wishes(descriptors, configured)| && Normalize(Wishes(descriptors, configured)[at].raw, parses).Err?
    ensures var wishes := Wishes(descriptors, configured);
            && !AllNormalize(wishes, parses)
            && Justified(Normalize(wishes[at].raw, parses).error, descriptors, configured, parses)
  {
    hide Normalize, Wishes, Strokes;
    NormalizeErrors(Wishes(descriptors, configured)[at].raw, parses);
  }

  lemma NormalizeErrors(raw: string, parses: string -> bool)
    requires Normalize(raw, parses).Err?
    ensures var e := Normalize(raw, parses).error; e.InvalidStroke? || (e.BlankSequence? && Strokes(raw) == [])
  {
    hide SplitFrom, Join;
    SplitAreStrokes(raw, "");
    JoinedBlankIff(Strokes(raw));
  }

  lemma AllBooked(wishes: seq<Wish>, parses: string -> bool, bindings: seq<Binding>, occupied: map<string, string>)
    requires Booked(wishes, parses, bindings, occupied) && |bindings| == |wishes|
    ensures AllNormalize(wishes, parses) && NoClash(wishes, parses) && Fulfil(wishes, parses, bindings) && Distinct(bindings)
  {
    hide Normalize;
  }

  lemma NoWishes(configured: seq<Configured>)
    ensures Wishes([], configured) == []
  {
  }

  method BindAll(descriptors: seq<Descriptor>, configured: seq<Configured>, parses: string -> bool)
    returns (r: Result<seq<Binding>, ConfigError>)
    ensures var wishes := Wishes(descriptors, configured);
            && (r.Ok? <==> AllNormalize(wishes, parses) && NoClash(wishes, parses))
            && (r.Ok? ==> |r.value| == |wishes| && Fulfil(wishes, parses, r.value) && Distinct(r.value))
            && (r.Err? ==> Justified(r.error, descriptors, configured, parses))
  {
    hide Normalize, Strokes, Wishes, SequencesFor, Booked, AllNormalize, NoClash, Fulfil, Distinct, Justified;
    ghost var wishes := Wishes(descriptors, configured);
    var bindings: seq<Binding> := [];
    var occupied: map<string, string> := map[];
    assert descriptors[..0] == [];
    NoWishes(configured);
    NothingBooked(wishes, parses);
    for i := 0 to |descriptors|
      invariant |bindings| == |Wishes(descriptors[..i], configured)|
      invariant Booked(wishes, parses, bindings, occupied)
      invariant forall s :: s in occupied ==> exists k :: 0 <= k < i && descriptors[k].id == occupied[s]
    {
      var d := descriptors[i];
      var sequences := SequencesFor(d, configured);
      WishesAt(descriptors, configured, i);
      var withinAction: set<string> := {};
      ghost var start := |bindings|;
      for j := 0 to |sequences|
        invariant |bindings| == start + j && Booked(wishes, parses, bindings, occupied)
        invariant forall s :: s in withinAction ==> s in occupied && occupied[s] == d.id
        invariant forall s :: s in occupied && s !in withinAction ==> exists k :: 0 <= k < i && descriptors[k].id == occupied[s]
      {
        assert wishes[start + j] == wishes[start..start + |sequences|][j] == Wish(d.id, d.command, sequences[j]);
        var normalized := Normalize(sequences[j], parses);
        if normalized.Err? {
          InvalidIsWrong(descriptors, configured, parses, start + j);
          return Err(normalized.error);
        }
        var sequence := normalized.value;
        if sequence in withinAction {
          TakenIsWrong(descriptors, configured, parses, bindings, occupied, sequence);
          return Err(RepeatedBinding(d.id, sequence));
        }
        withinAction := withinAction + {sequence};
        if sequence in occupied {
          TakenIsWrong(descriptors, configured, parses, bindings, occupied, sequence);
          return Err(SharedBinding(sequence, occupied[sequence], d.id));
        }
        Book(wishes, parses, bindings, occupied, sequence);
        occupied := occupied[sequence := d.id];
        bindings := bindings + [Binding(d.command, sequence)];
      }
    }
    assert descriptors[..|descriptors|] == descriptors;
    AllBooked(wishes, parses, bindings, occupied);
    return Ok(bindings);
  }

  method ChordPrefixes(bindings: seq<Binding>) returns (prefixes: seq<string>)
    ensures Ascending(prefixes)
    ensures forall p :: p in prefixes <==> IsChordPrefix(bindings, p)
  {
    hide Strokes, Join, Insert, Ascending;
    var exact := set k | 0 <= k < |bindings| :: bindings[k].sequence;
    assert forall s :: s in exact <==> Bound(bindings, s);
    prefixes := [];
    NoneAscends();
    for k := 0 to |bindings|
      invariant Ascending(prefixes) && forall p :: p in prefixes ==> IsChordPrefix(bindings, p)
      invariant forall i, n :: 0 <= i < k && 0 < n < |Strokes(bindings[i].sequence)| ==>
                  Handled(bindings, prefixes, PrefixOf(bindings[i].sequence, n))
    {
      var sequence := bindings[k].sequence;
      var strokes := Strokes(sequence);
      var length := 1;
      while length < |strokes|
        invariant 1 <= length
        invariant Ascending(prefixes) && forall p :: p in prefixes ==> IsChordPrefix(bindings, p)
        invariant forall i, n :: 0 <= i < k && 0 < n < |Strokes(bindings[i].sequence)| ==>
                    Handled(bindings, prefixes, PrefixOf(bindings[i].sequence, n))
        invariant forall n :: 0 < n < length && n < |strokes| ==> Handled(bindings, prefixes, PrefixOf(sequence, n))
      {
        var prefix := PrefixOf(sequence, length);
        if prefix !in exact {
          assert IsChordPrefix(bindings, prefix);
          InsertMembers(prefixes, prefix);
          InsertAscends(prefixes, prefix);
          prefixes := Insert(prefixes, prefix);
        }
        length := length + 1;
      }
    }
  }

  predicate Handled(bindings: seq<Binding>, prefixes: seq<string>, prefix: string) {
    Bound(bindings, prefix) || prefix in prefixes
  }

  lemma NoneAscends()
    ensures Ascending([])
  {
  }

  method ResolveKeymap(descriptors: seq<Descriptor>, configured: seq<Configured>, parses: string -> bool)
    returns (r: Result<Resolved, ConfigError>)
    ensures var wishes := Wishes(descriptors, configured);
            && (r.Ok? <==> AllKnown(descriptors, configured) && AllNormalize(wishes, parses) && NoClash(wishes, parses))
            && (r.Ok? ==> |r.value.bindings| == |wishes| && Fulfil(wishes, parses, r.value.bindings)
                          && Distinct(r.value.bindings) && Ascending(r.value.chordPrefixes)
                          && forall p :: p in r.value.chordPrefixes <==> IsChordPrefix(r.value.bindings, p))
            && (r.Err? ==> Justified(r.error, descriptors, configured, parses))
  {
    hide Normalize, Strokes, Wishes, AllNormalize, NoClash, IsChordPrefix, Fulfil, Ascending, Distinct;
    for i := 0 to |configured|
      invariant forall k :: 0 <= k < i ==> Known(descriptors, configured[k].id)
    {
      if !Known(descriptors, configured[i].id) {
        return Err(UnknownAction(configured[i].id));
      }
    }
    var bound := BindAll(descriptors, configured, parses);
    if bound.Err? {
      return Err(bound.error);
    }
    var prefixes := ChordPrefixes(bound.value);
    return Ok(Resolved(bound.value, prefixes));
  }

  // ------------------------------------------------------------ prefix closure

  /** A sequence the keymap answers to: a binding, or a prefix that is held back. */
  predicate Answers(bindings: seq<Binding>, sequence: string) {
    Bound(bindings, sequence) || IsChordPrefix(bindings, sequence)
  }

  /**
   Whatever the keymap answers to, it answers to every stroke before its last one; so
   no chord can be abandoned half way without the keymap knowing.
   */
  lemma AnswersArePrefixClosed(bindings: seq<Binding>, sequence: string, n: nat)
    requires Answers(bindings, sequence) && 0 < n < |Strokes(sequence)|
    ensures Answers(bindings, PrefixOf(sequence, n))
  {
    hide Strokes, Join;
    if Bound(bindings, sequence) {
      var k :| 0 <= k < |bindings| && bindings[k].sequence == sequence;
      assert PrefixOf(bindings[k].sequence, n) == PrefixOf(sequence, n);
    } else {
      var k, m :| 0 <= k < |bindings| && 0 < m < |Strokes(bindings[k].sequence)| && PrefixOf(bindings[k].sequence, m) == sequence;
      StrokesOfPrefix(bindings[k].sequence, m);
      assert Strokes(sequence)[..n] == Strokes(bindings[k].sequence)[..n];
      assert PrefixOf(bindings[k].sequence, n) == PrefixOf(sequence, n);
    }
  }

  /** A held-back prefix is always one stroke or more away from a binding. */
  lemma HeldBackLeadsSomewhere(bindings: seq<Binding>, prefix: string)
    requires IsChordPrefix(bindings, prefix)
    ensures exists k :: 0 <= k < |bindings| && Strokes(prefix) < Strokes(bindings[k].sequence)
  {
    hide Strokes, Join;
    var k, n :| 0 <= k < |bindings| && 0 < n < |Strokes(bindings[k].sequence)| && PrefixOf(bindings[k].sequence, n) == prefix;
    StrokesOfPrefix(bindings[k].sequence, n);
    assert Strokes(prefix) < Strokes(bindings[k].sequence);
  }
}
