/** Reading an edited and printed document back: exactly when its entries survive. */
module PropertiesRoundTrip {
  import opened JsText
  import opened PropertyEntry
  import opened PropertyLines
  import opened PropertyEdits

  datatype Edit = SetEdit(key: Text, value: Text) | DeleteEdit(key: Text) | AssignEdit(pairs: Pairs)

  function Apply(lines: seq<Line>, edit: Edit): seq<Line> {
    match edit
    case SetEdit(key, value) => SetEntry(lines, key, value)
    case DeleteEdit(key) => DeleteEntries(lines, key)
    case AssignEdit(pairs) => AssignEntries(lines, pairs)
  }

  function Run(lines: seq<Line>, edits: seq<Edit>): seq<Line> {
    if edits == [] then lines else Apply(Run(lines, edits[..|edits| - 1]), edits[|edits| - 1])
  }

  /** The document after reading a text and editing it. */
  function Edited(text: Text, edits: seq<Edit>): Document {
    var doc := ParseDocument(text);
    doc.(lines := Run(doc.lines, edits))
  }

  /** Keys and values in order, duplicates included. */
  function Entries(lines: seq<Line>): seq<KeyValue> {
    if lines == [] then []
    else (if lines[0].Entry? then [KeyValue(lines[0].key, lines[0].value)] else []) + Entries(lines[1..])
  }

  function Reread(doc: Document): seq<Line> {
    ParseDocument(Print(doc)).lines
  }

  ghost predicate RoundTrips(doc: Document) {
    Entries(Reread(doc)) == Entries(doc.lines)
  }

  predicate IsChanged(line: Line) {
    line.Entry? && line.spelling.None?
  }

  /** An untouched entry whose spelling ends in a backslash that continues on nothing. */
  predicate Dangles(line: Line) {
    line.Entry? && line.spelling.Some? && Continues(GatherFirst(SplitLines(line.spelling.value)).logical)
  }

  /** What can be checked before printing. */
  predicate Printable(lines: seq<Line>) {
    lines == [] ||
    (&& (Dangles(lines[0]) ==> |lines| == 1)
     && (IsChanged(lines[0]) ==> !LosesHead(lines[0].key))
     && Printable(lines[1..]))
  }

  // ----- what every line of an edited document is like

  predicate Spells(parts: seq<Text>, key: Text, value: Text)
    requires parts != []
  {
    var g := GatherFirst(parts);
    && !IsNote(TrimStart(parts[0]))
    && g.rest == []
    && ParseEntry(DropDangling(g.logical)) == KeyValue(key, value)
  }

  predicate Sourced(line: Line) {
    match line
    case TextLine(raw) => OneLine(raw) && IsNote(TrimStart(raw))
    case Entry(key, value, Some(raw)) => !EndsInCR(raw) && Spells(SplitLines(raw), key, value)
    case Entry(_, _, None) => true
  }

  predicate FromSource(lines: seq<Line>) {
    lines == [] ||
    (&& Sourced(lines[0])
     && (Dangles(lines[0]) ==> forall line | line in lines[1..] :: IsChanged(line))
     && FromSource(lines[1..]))
  }

  lemma {:induction false} GatherUsesPrefix(logical: Text, parts: seq<Text>, rest: seq<Text>)
    ensures var g := Gather(logical, parts, rest);
            Gather(logical, parts, rest[..|rest| - |g.rest|]) == Gathered(g.logical, g.parts, [])
    decreases |rest|
  {
    var g := Gather(logical, parts, rest);
    var used := rest[..|rest| - |g.rest|];
    if Continues(logical) && rest != [] {
      GatherUsesPrefix(logical[..|logical| - 1] + SkipBlanks(rest[0]), parts + [rest[0]], rest[1..]);
      assert used[1..] == rest[1..][..|rest| - 1 - |g.rest|];
    } else {
      assert used == [];
    }
  }

  lemma PrefixOfLines(first: Text, more: seq<Text>, parts: seq<Text>, rest: seq<Text>)
    requires |rest| <= |more| && |parts| >= 1 && parts + rest == [first] + more
    ensures parts[0] == first && parts[1..] == more[..|more| - |rest|]
  {
    assert (parts + rest)[0] == parts[0];
    assert forall i :: 1 <= i < |parts| ==> parts[i] == (parts + rest)[i] == more[i - 1];
  }

  lemma GatherFirstAgain(physical: seq<Text>)
    requires physical != []
    ensures var g := GatherFirst(physical);
            g.parts != [] && g.parts[0] == physical[0] && GatherFirst(g.parts) == Gathered(g.logical, g.parts, [])
  {
    var first, more := physical[0], physical[1..];
    var g := Gather(TrimStart(first), [first], more);
    GatherUsesPrefix(TrimStart(first), [first], more);
    PrefixOfLines(first, more, g.parts, g.rest);
  }

  lemma {:induction false} ParsedFromSource(physical: seq<Text>, eol: Text)
    requires IsEol(eol) && forall i :: 0 <= i < |physical| ==> OneLine(physical[i])
    ensures FromSource(ParseLines(physical, eol))
    decreases |physical|
  {
    if physical == [] {
    } else if IsNote(TrimStart(physical[0])) {
      ParsedFromSource(physical[1..], eol);
    } else {
      var g := GatherFirst(physical);
      GatherFirstAgain(physical);
      assert forall i :: 0 <= i < |g.parts| ==> g.parts[i] == (g.parts + g.rest)[i];
      assert forall i :: 0 <= i < |g.rest| ==> g.rest[i] == (g.parts + g.rest)[|g.parts| + i];
      SplitJoin(g.parts, eol);
      ParsedFromSource(g.rest, eol);
    }
  }

  lemma {:induction false} AppendFromSource(lines: seq<Line>, line: Line)
    requires FromSource(lines) && IsChanged(line)
    ensures FromSource(lines + [line])
  {
    if lines != [] {
      AppendFromSource(lines[1..], line);
      assert (lines + [line])[1..] == lines[1..] + [line];
    }
  }

  lemma {:induction false} UpdateFromSource(lines: seq<Line>, i: nat, line: Line)
    requires FromSource(lines) && i < |lines| && IsChanged(line)
    ensures FromSource(lines[i := line])
  {
    if i == 0 {
      assert lines[i := line][1..] == lines[1..];
    } else {
      var rest := lines[1..];
      UpdateFromSource(rest, i - 1, line);
      assert lines[i := line][1..] == rest[i - 1 := line];
      assert forall other | other in rest[i - 1 := line] :: other == line || other in rest;
    }
  }

  lemma {:induction false} DeleteFromSource(lines: seq<Line>, key: Text)
    requires FromSource(lines)
    ensures FromSource(DeleteEntries(lines, key))
    ensures forall line | line in DeleteEntries(lines, key) :: line in lines
  {
    if lines != [] {
      DeleteFromSource(lines[1..], key);
      var kept := DeleteEntries(lines, key);
      if IsEntryOf(lines[0], key) {
        assert kept == DeleteEntries(lines[1..], key);
      } else {
        assert kept[0] == lines[0] && kept[1..] == DeleteEntries(lines[1..], key);
      }
    }
  }

  lemma {:induction false} KeepFromSource(lines: seq<Line>, keys: set<Text>)
    requires FromSource(lines)
    ensures FromSource(KeepKeys(lines, keys))
    ensures forall line | line in KeepKeys(lines, keys) :: line in lines
  {
    if lines != [] {
      KeepFromSource(lines[1..], keys);
      var kept := KeepKeys(lines, keys);
      if lines[0].Entry? && lines[0].key !in keys {
        assert kept == KeepKeys(lines[1..], keys);
      } else {
        assert kept[0] == lines[0] && kept[1..] == KeepKeys(lines[1..], keys);
      }
    }
  }

  lemma SetFromSource(lines: seq<Line>, key: Text, value: Text)
    requires FromSource(lines)
    ensures FromSource(SetEntry(lines, key, value))
  {
    var i := LastIndex(lines, key);
    if i == |lines| {
      AppendFromSource(lines, Entry(key, value, None));
    } else {
      UpdateFromSource(lines, i, Entry(key, value, None));
    }
  }

  lemma {:induction false} SetAllFromSource(lines: seq<Line>, pairs: Pairs)
    requires FromSource(lines)
    ensures FromSource(SetAll(lines, pairs))
    decreases |pairs|
  {
    if pairs != [] {
      SetFromSource(lines, pairs[0].0, pairs[0].1);
      SetAllFromSource(SetEntry(lines, pairs[0].0, pairs[0].1), pairs[1..]);
    }
  }

  /** Every run of edits keeps the invariant. */
  lemma {:induction false} RunFromSource(lines: seq<Line>, edits: seq<Edit>)
    requires FromSource(lines)
    ensures FromSource(Run(lines, edits))
  {
    if edits != [] {
      var before := Run(lines, edits[..|edits| - 1]);
      RunFromSource(lines, edits[..|edits| - 1]);
      match edits[|edits| - 1]
      case SetEdit(key, value) => SetFromSource(before, key, value);
      case DeleteEdit(key) => DeleteFromSource(before, key);
      case AssignEdit(pairs) =>
        KeepFromSource(before, KeysOf(pairs));
        SetAllFromSource(KeepKeys(before, KeysOf(pairs)), pairs);
    }
  }

  // ----- the physical lines of a printed document

  function Physical(lines: seq<Line>): seq<Text> {
    if lines == [] then [] else SplitLines(Spelling(lines[0])) + Physical(lines[1..])
  }

  lemma SpellingOfSourced(line: Line)
    requires Sourced(line)
    ensures !EndsInCR(Spelling(line))
    ensures line.TextLine? || IsChanged(line) ==> SplitLines(Spelling(line)) == [Spelling(line)]
  {
    if line.TextLine? {
      SplitOneLine(line.raw);
    } else if IsChanged(line) {
      SerialisedIsOneLine(line.key, line.value);
      SplitOneLine(Spelling(line));
    }
  }

  lemma PrintedFirst(first: Text, eol: Text, body: Text)
    requires IsEol(eol) && !EndsInCR(first) && !EndsInCR(body)
    ensures SplitLines(first + eol + body) == SplitLines(first) + SplitLines(body)
    ensures !EndsInCR(first + eol + body)
  {
    SplitConcat(first, eol, body);
  }

  lemma {:induction false} PrintedLines(lines: seq<Line>, eol: Text)
    requires IsEol(eol) && FromSource(lines) && lines != []
    ensures SplitLines(Join(Spellings(lines), eol)) == Physical(lines)
    ensures !EndsInCR(Join(Spellings(lines), eol))
  {
    var rest := lines[1..];
    SpellingOfSourced(lines[0]);
    assert Spellings(lines)[1..] == Spellings(rest);
    if rest == [] {
      assert Physical(rest) == [];
    } else {
      PrintedLines(rest, eol);
      PrintedFirst(Spelling(lines[0]), eol, Join(Spellings(rest), eol));
    }
  }

  // ----- reading those lines

  lemma {:induction false} GatherMore(logical: Text, parts: seq<Text>, rest: seq<Text>, more: seq<Text>)
    requires Gather(logical, parts, rest).rest == []
    ensures var g := Gather(logical, parts, rest);
            Gather(logical, parts, rest + more) == Gather(g.logical, g.parts, more)
    decreases |rest|
  {
    if rest == [] {
      assert rest + more == more;
    } else {
      assert (rest + more)[1..] == rest[1..] + more;
      GatherMore(logical[..|logical| - 1] + SkipBlanks(rest[0]), parts + [rest[0]], rest[1..], more);
    }
  }

  lemma GatherFirstMore(parts: seq<Text>, more: seq<Text>)
    requires parts != [] && GatherFirst(parts).rest == []
    ensures var g := GatherFirst(parts);
            GatherFirst(parts + more) == Gather(g.logical, g.parts, more)
  {
    assert (parts + more)[1..] == parts[1..] + more;
    GatherMore(TrimStart(parts[0]), [parts[0]], parts[1..], more);
  }

  lemma {:induction false} AtMostOneEach(physical: seq<Text>, eol: Text)
    ensures |Entries(ParseLines(physical, eol))| <= |physical|
    decreases |physical|
  {
    if physical != [] {
      var lines := ParseLines(physical, eol);
      var rest := if IsNote(TrimStart(physical[0])) then physical[1..] else GatherFirst(physical).rest;
      assert lines[1..] == ParseLines(rest, eol);
      AtMostOneEach(rest, eol);
    }
  }

  lemma EntriesOfParsed(physical: seq<Text>, eol: Text)
    requires physical != []
    ensures IsNote(TrimStart(physical[0])) ==>
              Entries(ParseLines(physical, eol)) == Entries(ParseLines(physical[1..], eol))
    ensures !IsNote(TrimStart(physical[0])) ==>
              var g := GatherFirst(physical);
              Entries(ParseLines(physical, eol))
              == [ParseEntry(DropDangling(g.logical))] + Entries(ParseLines(g.rest, eol))
  {
    var lines := ParseLines(physical, eol);
    var rest := if IsNote(TrimStart(physical[0])) then physical[1..] else GatherFirst(physical).rest;
    assert lines[1..] == ParseLines(rest, eol);
  }

  /** A whole entry is read, and reading goes on with the next line. */
  lemma ReadWhole(parts: seq<Text>, more: seq<Text>, key: Text, value: Text, eol: Text)
    requires parts != [] && Spells(parts, key, value) && !Continues(GatherFirst(parts).logical)
    ensures Entries(ParseLines(parts + more, eol)) == [KeyValue(key, value)] + Entries(ParseLines(more, eol))
  {
    GatherFirstMore(parts, more);
    EntriesOfParsed(parts + more, eol);
  }

  /** A dangling backslash swallows the next line: one entry fewer. */
  lemma ReadDangling(parts: seq<Text>, more: seq<Text>, key: Text, value: Text, eol: Text)
    requires parts != [] && Spells(parts, key, value) && Continues(GatherFirst(parts).logical) && more != []
    ensures |Entries(ParseLines(parts + more, eol))| <= |more|
  {
    GatherFirstMore(parts, more);
    EntriesOfParsed(parts + more, eol);
    AtMostOneEach(GatherFirst(parts + more).rest, eol);
  }

  lemma SerialisedSpells(key: Text, value: Text)
    requires !LosesHead(key)
    ensures Spells([Serialise(key, value)], key, value)
    ensures !Continues(GatherFirst([Serialise(key, value)]).logical)
  {
    var line := Serialise(key, value);
    TrimSerialised(key, value);
    SerialisedIsOneLine(key, value);
    ParseUndoesSerialise(key, value);
  }

  /** A key that loses its head is read as another key or not at all. */
  lemma ReadLost(key: Text, value: Text, more: seq<Text>, eol: Text)
    requires LosesHead(key)
    ensures var read := Entries(ParseLines([Serialise(key, value)] + more, eol));
            || read == Entries(ParseLines(more, eol))
            || (read != [] && |read[0].key| < |key| && read[1..] == Entries(ParseLines(more, eol)))
  {
    var physical := [Serialise(key, value)] + more;
    TrimLosesKey(key, value);
    assert physical[1..] == more;
    EntriesOfParsed(physical, eol);
  }

  lemma {:induction false} ChangedEntries(lines: seq<Line>)
    requires forall line | line in lines :: IsChanged(line)
    ensures |Entries(lines)| == |lines| == |Physical(lines)|
  {
    if lines != [] {
      ChangedEntries(lines[1..]);
      assert lines[0] in lines;
      SpellingOfSourced(lines[0]);
    }
  }

  /** Characters in all keys. */
  function KeyChars(entries: seq<KeyValue>): nat {
    if entries == [] then 0 else |entries[0].key| + KeyChars(entries[1..])
  }

  /** Fewer entries, or as many with fewer characters in their keys. */
  predicate Shrunk(read: seq<KeyValue>, entries: seq<KeyValue>) {
    |read| < |entries| || (|read| == |entries| && KeyChars(read) < KeyChars(entries))
  }

  predicate SameOrShrunk(read: seq<KeyValue>, entries: seq<KeyValue>, printable: bool) {
    if printable then read == entries else Shrunk(read, entries)
  }

  /** The heart of the round trip: entries survive in printable documents, in all others reading loses some. */
  lemma {:induction false} ReadBack(lines: seq<Line>, eol: Text)
    requires FromSource(lines)
    ensures SameOrShrunk(Entries(ParseLines(Physical(lines), eol)), Entries(lines), Printable(lines))
  {
    if lines != [] {
      ReadBack(lines[1..], eol);
      if Dangles(lines[0]) {
        ReadBackDangling(lines, eol);
      } else {
        ReadBackFirst(lines, eol);
      }
    }
  }

  lemma ReadBackFirst(lines: seq<Line>, eol: Text)
    requires FromSource(lines) && lines != [] && !Dangles(lines[0])
    requires SameOrShrunk(Entries(ParseLines(Physical(lines[1..]), eol)), Entries(lines[1..]), Printable(lines[1..]))
    ensures SameOrShrunk(Entries(ParseLines(Physical(lines), eol)), Entries(lines), Printable(lines))
  {
    var line, rest := lines[0], lines[1..];
    ReadFirst(line, Physical(rest), eol);
    hide ParseLines, Physical, Sourced, Dangles;
    var read, others := Entries(ParseLines(Physical(lines), eol)), Entries(ParseLines(Physical(rest), eol));
    assert read == Entries(ParseLines(SplitLines(Spelling(line)) + Physical(rest), eol)) by {
      PhysicalFirst(lines, eol);
    }
    if line.TextLine? {
      assert Entries(lines) == Entries(rest);
    } else {
      EntriesFirst(lines);
      if IsChanged(line) && LosesHead(line.key) {
        LostFirst(read, others, KeyValue(line.key, line.value), Entries(rest), Printable(rest));
      } else {
        KeptFirst(others, KeyValue(line.key, line.value), Entries(rest), Printable(rest));
      }
    }
  }

  lemma PhysicalFirst(lines: seq<Line>, eol: Text)
    requires lines != []
    ensures Physical(lines) == SplitLines(Spelling(lines[0])) + Physical(lines[1..])
  {
  }

  lemma EntriesFirst(lines: seq<Line>)
    requires lines != [] && lines[0].Entry?
    ensures Entries(lines) == [KeyValue(lines[0].key, lines[0].value)] + Entries(lines[1..])
  {
  }

  lemma KeyCharsCons(kv: KeyValue, rest: seq<KeyValue>)
    ensures KeyChars([kv] + rest) == |kv.key| + KeyChars(rest)
  {
    assert ([kv] + rest)[1..] == rest;
  }

  lemma KeptFirst(others: seq<KeyValue>, kv: KeyValue, entries: seq<KeyValue>, printable: bool)
    requires SameOrShrunk(others, entries, printable)
    ensures SameOrShrunk([kv] + others, [kv] + entries, printable)
  {
    KeyCharsCons(kv, others);
    KeyCharsCons(kv, entries);
  }

  lemma LostFirst(read: seq<KeyValue>, others: seq<KeyValue>, kv: KeyValue, entries: seq<KeyValue>, printable: bool)
    requires SameOrShrunk(others, entries, printable)
    requires read == others || (read != [] && |read[0].key| < |kv.key| && read[1..] == others)
    ensures Shrunk(read, [kv] + entries)
  {
    KeyCharsCons(kv, entries);
  }

  /** How the first line of a document that does not dangle is read. */
  lemma ReadFirst(line: Line, more: seq<Text>, eol: Text)
    requires Sourced(line) && !Dangles(line)
    ensures var read := Entries(ParseLines(SplitLines(Spelling(line)) + more, eol));
            var others := Entries(ParseLines(more, eol));
            if line.TextLine? then read == others
            else if IsChanged(line) && LosesHead(line.key) then
              read == others || (read != [] && |read[0].key| < |line.key| && read[1..] == others)
            else read == [KeyValue(line.key, line.value)] + others
  {
    SpellingOfSourced(line);
    var parts := SplitLines(Spelling(line));
    if line.TextLine? {
      EntriesOfParsed(parts + more, eol);
      assert (parts + more)[1..] == more;
    } else if !IsChanged(line) {
      ReadWhole(parts, more, line.key, line.value, eol);
    } else if LosesHead(line.key) {
      ReadLost(line.key, line.value, more, eol);
    } else {
      SerialisedSpells(line.key, line.value);
      ReadWhole(parts, more, line.key, line.value, eol);
    }
  }

  lemma ReadBackDangling(lines: seq<Line>, eol: Text)
    requires FromSource(lines) && lines != [] && Dangles(lines[0])
    ensures SameOrShrunk(Entries(ParseLines(Physical(lines), eol)), Entries(lines), Printable(lines))
  {
    if |lines| == 1 {
      assert lines == [lines[0]];
      LoneDangling(lines[0], eol);
    } else {
      var line, more := lines[0], Physical(lines[1..]);
      ChangedEntries(lines[1..]);
      ReadDangling(SplitLines(Spelling(line)), more, line.key, line.value, eol);
    }
  }

  lemma LoneDangling(line: Line, eol: Text)
    requires Sourced(line) && Dangles(line)
    ensures Printable([line]) && Entries(ParseLines(Physical([line]), eol)) == Entries([line])
  {
    assert [line][1..] == [];
    var parts := SplitLines(Spelling(line));
    assert Physical([line]) == parts + [] == parts;
    EntriesOfParsed(parts, eol);
    assert Entries(ParseLines([], eol)) == [];
  }

  // ----- an empty last line is dropped by the reader, entries do not notice

  lemma {:induction false} GatherWithoutLast(logical: Text, parts: seq<Text>, rest: seq<Text>)
    requires rest != [] && rest[|rest| - 1] == []
    ensures var g, h := Gather(logical, parts, rest), Gather(logical, parts, rest[..|rest| - 1]);
            && DropDangling(h.logical) == DropDangling(g.logical)
            && (g.rest == [] ==> h.rest == [])
            && (g.rest != [] ==> g.rest[|g.rest| - 1] == [] && h.rest == g.rest[..|g.rest| - 1])
    decreases |rest|
  {
    var init := rest[..|rest| - 1];
    if Continues(logical) {
      var joined := logical[..|logical| - 1] + SkipBlanks(rest[0]);
      if |rest| == 1 {
        assert joined == logical[..|logical| - 1];
      } else {
        GatherWithoutLast(joined, parts + [rest[0]], rest[1..]);
        assert init[1..] == rest[1..][..|rest| - 2];
      }
    }
  }

  lemma {:induction false} BlankLastLine(physical: seq<Text>, eol: Text)
    requires physical != [] && physical[|physical| - 1] == []
    ensures Entries(ParseLines(physical[..|physical| - 1], eol)) == Entries(ParseLines(physical, eol))
    decreases |physical|, 1
  {
    EntriesOfParsed(physical, eol);
    if |physical| == 1 {
      assert physical[..0] == [] && physical[1..] == [];
    } else {
      BlankLastLineOfMany(physical, eol);
    }
  }

  lemma {:induction false} BlankLastLineOfMany(physical: seq<Text>, eol: Text)
    requires |physical| > 1 && physical[|physical| - 1] == []
    ensures Entries(ParseLines(physical[..|physical| - 1], eol)) == Entries(ParseLines(physical, eol))
    decreases |physical|, 0
  {
    var init, tail := physical[..|physical| - 1], physical[1..];
    assert init[0] == physical[0] && init[1..] == tail[..|tail| - 1];
    EntriesOfParsed(physical, eol);
    EntriesOfParsed(init, eol);
    if IsNote(TrimStart(physical[0])) {
      BlankLastLine(tail, eol);
    } else {
      GatherWithoutLast(TrimStart(physical[0]), [physical[0]], tail);
      var g, h := GatherFirst(physical), GatherFirst(init);
      if g.rest == [] {
        assert h.rest == [];
      } else {
        assert h.rest == g.rest[..|g.rest| - 1];
        BlankLastLine(g.rest, eol);
      }
    }
  }

  /** The printed text ends with a terminator of its own: the reader drops the empty line after it. */
  lemma RereadTrailing(text: Text, body: Text, eol: Text, physical: seq<Text>)
    requires IsEol(eol) && !EndsInCR(body) && SplitLines(body) == physical && text == body + eol
    ensures PhysicalLines(text) == physical
  {
    SplitConcat(body, eol, []);
    assert text + [] == text;
    assert SplitLines([]) == [[]];
    assert (physical + [[]])[..|physical|] == physical;
  }

  /** Without one: an empty last line is dropped, and its entries with it are none. */
  lemma RereadPlain(text: Text, physical: seq<Text>)
    requires text != [] && SplitLines(text) == physical
    ensures Entries(ParseLines(PhysicalLines(text), DetectEol(text))) == Entries(ParseLines(physical, DetectEol(text)))
  {
    var dropped := PhysicalLines(text);
    assert dropped == physical || (EndsWithTerminator(text) && dropped == physical[..|physical| - 1]);
    hide ParseLines, Entries, SplitLines, DetectEol, PhysicalLines;
    if EndsWithTerminator(text) {
      BlankLastLine(physical, DetectEol(text));
    }
  }

  lemma RereadEmpty(physical: seq<Text>, eol: Text)
    requires SplitLines([]) == physical
    ensures Entries(ParseLines(PhysicalLines([]), eol)) == Entries(ParseLines(physical, eol))
  {
    assert physical == [[]] && PhysicalLines([]) == [];
    BlankLastLine(physical, eol);
  }

  lemma RereadEntries(doc: Document)
    requires IsEol(doc.eol) && FromSource(doc.lines)
    ensures Entries(Reread(doc)) == Entries(ParseLines(Physical(doc.lines), DetectEol(Print(doc))))
  {
    var text, eol, physical := Print(doc), DetectEol(Print(doc)), Physical(doc.lines);
    if doc.lines == [] {
      assert text == [] && PhysicalLines(text) == [];
    } else {
      hide Entries, ParseLines, PhysicalLines, Physical, FromSource, Join, Spellings, SplitLines, DetectEol;
      var body := Join(Spellings(doc.lines), doc.eol);
      PrintedLines(doc.lines, doc.eol);
      if doc.trailingEol {
        RereadTrailing(text, body, doc.eol, physical);
      } else if text == [] {
        RereadEmpty(physical, eol);
      } else {
        RereadPlain(text, physical);
      }
    }
  }

  /** After every run of edits the printed document is read back whole, or with something lost. */
  lemma ReadBackOrShrunk(text: Text, edits: seq<Edit>)
    ensures var doc := Edited(text, edits); SameOrShrunk(Entries(Reread(doc)), Entries(doc.lines), Printable(doc.lines))
  {
    var start, doc := ParseDocument(text), Edited(text, edits);
    SplitGivesLines(text);
    ParsedFromSource(PhysicalLines(text), start.eol);
    RunFromSource(start.lines, edits);
    hide FromSource, ParseLines, Physical, Printable, Run, Print, Entries;
    RereadEntries(doc);
    ReadBack(doc.lines, DetectEol(Print(doc)));
  }

  /**
   * Edit round trip, for every text and every run of edits: reading the printed document gives its
   * entries back exactly when no untouched line dangles before another one and no changed key loses
   * its head to trimming.
   */
  lemma RoundTripExactly(text: Text, edits: seq<Edit>)
    ensures RoundTrips(Edited(text, edits)) <==> Printable(Edited(text, edits).lines)
  {
    hide Edited, Reread, Entries, Printable;
    ReadBackOrShrunk(text, edits);
  }
}
