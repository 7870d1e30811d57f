/** What the round trip of entries means for the effective record callers read. */
module PropertiesRecord {
  import opened JsText
  import opened Collections
  import opened PropertyEntry
  import opened PropertyLines
  import opened PropertyEdits
  import opened PropertiesRoundTrip

  lemma {:induction false} EntriesGiveRecord(a: seq<Line>, b: seq<Line>)
    requires Entries(a) == Entries(b)
    ensures ToRecord(a) == ToRecord(b)
  {
    RecordFromEntries(a);
    RecordFromEntries(b);
  }

  function RecordOfEntries(entries: seq<KeyValue>): Record {
    if entries == [] then map[] else map[entries[0].key := entries[0].value] + RecordOfEntries(entries[1..])
  }

  lemma {:induction false} RecordFromEntries(lines: seq<Line>)
    ensures ToRecord(lines) == RecordOfEntries(Entries(lines))
  {
    if lines != [] {
      RecordFromEntries(lines[1..]);
      ToRecordCons(lines);
      if lines[0].Entry? {
        assert Entries(lines)[1..] == Entries(lines[1..]);
      } else {
        assert Entries(lines) == Entries(lines[1..]);
      }
    }
  }

  /** No key the edit may serialise starts with white space the escaper leaves alone. */
  predicate SafeKeys(edit: Edit) {
    match edit
    case SetEdit(key, _) => !LosesHead(key)
    case DeleteEdit(_) => true
    case AssignEdit(pairs) => forall i :: 0 <= i < |pairs| ==> !LosesHead(pairs[i].0)
  }

  /** Lines after an edit are old lines or safely changed entries. */
  ghost predicate OldOrSafe(before: seq<Line>, after: seq<Line>) {
    forall line | line in after :: line in before || (IsChanged(line) && !LosesHead(line.key))
  }

  lemma SetOldOrSafe(lines: seq<Line>, key: Text, value: Text)
    requires !LosesHead(key)
    ensures OldOrSafe(lines, SetEntry(lines, key, value))
  {
  }

  lemma {:induction false} SetAllOldOrSafe(lines: seq<Line>, pairs: Pairs)
    requires forall i :: 0 <= i < |pairs| ==> !LosesHead(pairs[i].0)
    ensures OldOrSafe(lines, SetAll(lines, pairs))
    decreases |pairs|
  {
    if pairs != [] {
      var after := SetEntry(lines, pairs[0].0, pairs[0].1);
      SetOldOrSafe(lines, pairs[0].0, pairs[0].1);
      SetAllOldOrSafe(after, pairs[1..]);
    }
  }

  lemma {:induction false} RunOldOrSafe(lines: seq<Line>, edits: seq<Edit>)
    requires FromSource(lines)
    requires forall edit | edit in edits :: SafeKeys(edit)
    ensures OldOrSafe(lines, Run(lines, edits))
  {
    if edits != [] {
      var init, last := edits[..|edits| - 1], edits[|edits| - 1];
      var before := Run(lines, init);
      assert SafeKeys(last);
      RunOldOrSafe(lines, init);
      RunFromSource(lines, init);
      match last
      case SetEdit(key, value) => SetOldOrSafe(before, key, value);
      case DeleteEdit(key) => DeleteFromSource(before, key);
      case AssignEdit(pairs) =>
        KeepFromSource(before, KeysOf(pairs));
        SetAllOldOrSafe(KeepKeys(before, KeysOf(pairs)), pairs);
    }
  }

  lemma {:induction false} PrintableLines(lines: seq<Line>)
    requires forall line | line in lines :: !Dangles(line) && (IsChanged(line) ==> !LosesHead(line.key))
    ensures Printable(lines)
  {
    if lines != [] {
      assert lines[0] in lines;
      PrintableLines(lines[1..]);
    }
  }

  lemma {:induction false} ParsedIsUnchanged(physical: seq<Text>, eol: Text)
    ensures forall line | line in ParseLines(physical, eol) :: !IsChanged(line)
    decreases |physical|
  {
    if physical != [] {
      ParsedIsUnchanged(if IsNote(TrimStart(physical[0])) then physical[1..] else GatherFirst(physical).rest, eol);
    }
  }

  lemma SourceOfParse(text: Text)
    ensures FromSource(ParseDocument(text).lines)
  {
    SplitGivesLines(text);
    ParsedFromSource(PhysicalLines(text), DetectEol(text));
  }

  /** A printable document keeps its effective record, repeated keys and all, after every run of edits. */
  lemma PrintableRecordSurvives(text: Text, edits: seq<Edit>)
    requires Printable(Edited(text, edits).lines)
    ensures var doc := Edited(text, edits); ToRecord(Reread(doc)) == ToRecord(doc.lines)
  {
    hide Edited, Reread, Entries, Printable, ToRecord;
    var doc := Edited(text, edits);
    RoundTripExactly(text, edits);
    EntriesGiveRecord(Reread(doc), doc.lines);
  }

  /** With no dangling backslash in the source and safe keys, no run of edits loses a value. */
  lemma EditedRecordSurvives(text: Text, edits: seq<Edit>)
    requires forall line | line in ParseDocument(text).lines :: !Dangles(line)
    requires forall edit | edit in edits :: SafeKeys(edit)
    ensures ToRecord(Reread(Edited(text, edits))) == ToRecord(Edited(text, edits).lines)
  {
    var doc := Edited(text, edits);
    SourceOfParse(text);
    ParsedIsUnchanged(PhysicalLines(text), DetectEol(text));
    RunOldOrSafe(ParseDocument(text).lines, edits);
    PrintableLines(doc.lines);
    PrintableRecordSurvives(text, edits);
  }

  // ----- with distinct keys the record decides

  function KeysIn(entries: seq<KeyValue>): (keys: seq<Text>)
    ensures |keys| == |entries| && forall i :: 0 <= i < |keys| ==> keys[i] == entries[i].key
  {
    seq(|entries|, i requires 0 <= i < |entries| => entries[i].key)
  }

  /** No key has two entries. */
  predicate DistinctEntries(lines: seq<Line>) {
    NoRepeats(KeysIn(Entries(lines)))
  }

  lemma {:induction false} RecordKeys(entries: seq<KeyValue>)
    ensures RecordOfEntries(entries).Keys == Elements(KeysIn(entries))
  {
    if entries != [] {
      RecordKeys(entries[1..]);
      assert KeysIn(entries) == [entries[0].key] + KeysIn(entries[1..]);
    }
  }

  function Chars(keys: seq<Text>): nat {
    if keys == [] then 0 else Chars(keys[..|keys| - 1]) + |keys[|keys| - 1]|
  }

  lemma {:induction false} CharsConcat(a: seq<Text>, b: seq<Text>)
    ensures Chars(a + b) == Chars(a) + Chars(b)
  {
    if b == [] {
      assert a + b == a;
    } else {
      var init := b[..|b| - 1];
      CharsConcat(a, init);
      assert (a + b)[..|a + b| - 1] == a + init;
    }
  }

  lemma OneKeyChars(key: Text)
    ensures Chars([key]) == |key|
  {
    var one: seq<Text> := [key];
    assert one[..0] == [];
  }

  lemma {:induction false} KeyCharsAreChars(entries: seq<KeyValue>)
    ensures KeyChars(entries) == Chars(KeysIn(entries))
  {
    if entries != [] {
      KeyCharsAreChars(entries[1..]);
      var first := entries[0].key;
      assert KeysIn(entries) == [first] + KeysIn(entries[1..]);
      CharsConcat([first], KeysIn(entries[1..]));
      OneKeyChars(first);
    }
  }

  lemma WithoutOne(b: seq<Text>, j: nat)
    requires NoRepeats(b) && j < |b|
    ensures var rest := b[..j] + b[j + 1..];
            NoRepeats(rest) && Elements(rest) == Elements(b) - {b[j]} && Chars(b) == Chars(rest) + |b[j]|
  {
    var rest := b[..j] + b[j + 1..];
    assert forall i :: 0 <= i < |rest| ==> rest[i] == b[if i < j then i else i + 1];
    WithoutOneChars(b, j);
    forall x
      ensures x in Elements(rest) <==> x in Elements(b) - {b[j]}
    {
      if x in Elements(b) - {b[j]} {
        var i :| 0 <= i < |b| && b[i] == x;
        assert rest[if i < j then i else i - 1] == x;
      }
    }
  }

  lemma WithoutOneChars(b: seq<Text>, j: nat)
    requires j < |b|
    ensures Chars(b) == Chars(b[..j] + b[j + 1..]) + |b[j]|
  {
    assert b == (b[..j] + [b[j]]) + b[j + 1..];
    CharsConcat(b[..j] + [b[j]], b[j + 1..]);
    CharsConcat(b[..j], [b[j]]);
    CharsConcat(b[..j], b[j + 1..]);
    OneKeyChars(b[j]);
  }

  lemma {:induction false} SameElementsSameChars(a: seq<Text>, b: seq<Text>)
    requires NoRepeats(a) && NoRepeats(b) && Elements(a) == Elements(b)
    ensures Chars(a) == Chars(b)
    decreases |a|
  {
    if a == [] {
      ElementsCount(a);
      ElementsCount(b);
    } else {
      var n := |a| - 1;
      assert a[n] in Elements(a);
      var j :| 0 <= j < |b| && b[j] == a[n];
      WithoutOne(b, j);
      WithoutOne(a, n);
      assert a[..n] + a[n + 1..] == a[..n];
      SameElementsSameChars(a[..n], b[..j] + b[j + 1..]);
    }
  }

  /** Entries with distinct keys cannot shrink without changing the record. */
  lemma ShrunkRecordDiffers(read: seq<KeyValue>, entries: seq<KeyValue>)
    requires Shrunk(read, entries) && NoRepeats(KeysIn(entries))
    ensures RecordOfEntries(read) != RecordOfEntries(entries)
  {
    var a, b := KeysIn(read), KeysIn(entries);
    RecordKeys(read);
    RecordKeys(entries);
    ElementsCount(a);
    ElementsCount(b);
    KeyCharsAreChars(read);
    KeyCharsAreChars(entries);
    if RecordOfEntries(read) == RecordOfEntries(entries) {
      SameElementsSameChars(a, b);
    }
  }

  /**
   * The record itself, for every text and every run of edits that leaves no key twice: reading the printed
   * document gives the same effective record if and only if the document is printable.
   */
  lemma RecordRoundTripsExactly(text: Text, edits: seq<Edit>)
    requires DistinctEntries(Edited(text, edits).lines)
    ensures var doc := Edited(text, edits); ToRecord(Reread(doc)) == ToRecord(doc.lines) <==> Printable(doc.lines)
  {
    hide Edited, Reread, Entries, Printable, ToRecord, RecordOfEntries, Shrunk;
    var doc := Edited(text, edits);
    ReadBackOrShrunk(text, edits);
    RecordFromEntries(Reread(doc));
    RecordFromEntries(doc.lines);
    if Printable(doc.lines) {
      PrintableRecordSurvives(text, edits);
    } else {
      ShrunkRecordDiffers(Entries(Reread(doc)), Entries(doc.lines));
    }
  }

  // ----- both conditions are needed

  lemma {:induction false} NotPrintableAt(lines: seq<Line>, i: nat)
    requires i < |lines|
    requires (Dangles(lines[i]) && i + 1 < |lines|) || (IsChanged(lines[i]) && LosesHead(lines[i].key))
    ensures !Printable(lines)
  {
    if i > 0 {
      NotPrintableAt(lines[1..], i - 1);
    }
  }

  lemma {:induction false} EntriesConcat(a: seq<Line>, b: seq<Line>)
    ensures Entries(a + b) == Entries(a) + Entries(b)
  {
    if a == [] {
      assert a + b == b;
    } else {
      EntriesConcat(a[1..], b);
      Uncons(a, b);
      Assoc(if a[0].Entry? then [KeyValue(a[0].key, a[0].value)] else [], Entries(a[1..]), Entries(b));
    }
  }

  lemma KeysInConcat(a: seq<KeyValue>, b: seq<KeyValue>)
    ensures KeysIn(a + b) == KeysIn(a) + KeysIn(b)
  {
  }

  lemma LoneEntry(line: Line)
    requires line.Entry?
    ensures Entries([line]) == [KeyValue(line.key, line.value)]
  {
    assert [line][1..] == [];
  }

  /** Setting one key leaves no key twice when none was. */
  lemma SetKeepsDistinct(lines: seq<Line>, key: Text, value: Text)
    requires DistinctEntries(lines)
    ensures DistinctEntries(SetEntry(lines, key, value))
  {
    hide Entries, ToRecord;
    var i, renewed := LastIndex(lines, key), Entry(key, value, None);
    LoneEntry(renewed);
    if i == |lines| {
      EntriesConcat(lines, [renewed]);
      KeysInConcat(Entries(lines), Entries([renewed]));
      LastEntryIsEffective(lines, key);
      RecordFromEntries(lines);
      RecordKeys(Entries(lines));
      assert key !in KeysIn(Entries(lines)) by { assert key !in Elements(KeysIn(Entries(lines))); }
      var all := KeysIn(Entries(lines)) + [key];
      assert all[..|all| - 1] == KeysIn(Entries(lines));
      NoRepeatsSnoc(all);
    } else {
      var a, b := lines[..i], lines[i + 1..];
      LoneEntry(lines[i]);
      EntriesAround(a, lines[i], b);
      EntriesAround(a, renewed, b);
      assert lines == a + [lines[i]] + b && lines[i := renewed] == a + [renewed] + b;
    }
  }

  lemma EntriesAround(a: seq<Line>, line: Line, b: seq<Line>)
    requires line.Entry?
    ensures KeysIn(Entries(a + [line] + b)) == KeysIn(Entries(a)) + [line.key] + KeysIn(Entries(b))
  {
    hide Entries;
    EntriesConcat(a + [line], b);
    EntriesConcat(a, [line]);
    LoneEntry(line);
  }

  /** The round trip of one `set` fails, on the entries and, when the source has no key twice, on the record. */
  ghost predicate SetIsLost(text: Text, key: Text, value: Text) {
    var doc := Edited(text, [SetEdit(key, value)]);
    && !RoundTrips(doc)
    && (DistinctEntries(ParseDocument(text).lines) ==> ToRecord(Reread(doc)) != ToRecord(doc.lines))
  }

  lemma UnprintableSetIsLost(text: Text, key: Text, value: Text)
    requires !Printable(SetEntry(ParseDocument(text).lines, key, value))
    ensures SetIsLost(text, key, value)
  {
    hide ParseDocument, Reread, Entries, Printable, ToRecord, SetEntry;
    var lines := ParseDocument(text).lines;
    RunOne(lines, SetEdit(key, value));
    RoundTripExactly(text, [SetEdit(key, value)]);
    if DistinctEntries(lines) {
      SetKeepsDistinct(lines, key, value);
      RecordRoundTripsExactly(text, [SetEdit(key, value)]);
    }
  }

  lemma RunOne(lines: seq<Line>, edit: Edit)
    ensures PropertiesRoundTrip.Run(lines, [edit]) == Apply(lines, edit)
  {
    assert [edit][..0] == [];
  }

  /** Adding any new key to a source that ends in a dangling backslash breaks the round trip. */
  lemma DanglingSourceBreaks(text: Text, key: Text, value: Text)
    requires var lines := ParseDocument(text).lines;
             lines != [] && Dangles(lines[|lines| - 1]) && key !in ToRecord(lines)
    ensures SetIsLost(text, key, value)
  {
    var lines := ParseDocument(text).lines;
    LastEntryIsEffective(lines, key);
    NotPrintableAt(lines + [Entry(key, value, None)], |lines| - 1);
    UnprintableSetIsLost(text, key, value);
  }

  /** Setting a key that loses its head breaks it in every document that does not hold the value already. */
  lemma LostHeadBreaks(text: Text, key: Text, value: Text)
    requires LosesHead(key)
    requires var record := ToRecord(ParseDocument(text).lines); key in record ==> record[key] != value
    ensures SetIsLost(text, key, value)
  {
    var lines := ParseDocument(text).lines;
    LastEntryIsEffective(lines, key);
    NotPrintableAt(SetEntry(lines, key, value), LastIndex(lines, key));
    UnprintableSetIsLost(text, key, value);
  }

  lemma LoneLineIsEntry(text: Text, eol: Text)
    requires !IsNote(TrimStart(text))
    ensures ParseLines([text], eol) == [EntryOf(GatherFirst([text]), eol)]
    ensures GatherFirst([text]) == Gathered(TrimStart(text), [text], [])
  {
    assert [text][1..] == [];
  }

  const DANGLING: Text := [97, EQUALS, 49, BACKSLASH] // a=1\

  lemma DanglingText()
    ensures Continues(DANGLING) && TrimStart(DANGLING) == DANGLING
    ensures ParseEntry(DropDangling(DANGLING)).key == [97]
  {
    assert DANGLING[..3] == [97, EQUALS, 49];
    var line: Text := [97, EQUALS, 49];
    assert line[1..] == [EQUALS, 49] && line[..1] == [97];
    assert KeyLen(line[1..]) == 0;
    UnescapePlain([97]);
  }

  lemma DanglingLines()
    ensures var lines := ParseDocument(DANGLING).lines;
            |lines| == 1 && lines[0].Entry? && lines[0].key == [97] && Dangles(lines[0])
  {
    SplitOneLine(DANGLING);
    assert PhysicalLines(DANGLING) == [DANGLING];
    DanglingText();
    LoneLineIsEntry(DANGLING, DetectEol(DANGLING));
  }

  /** Both failures happen and lose what callers read: `a=1\` with b set to 2, and an empty text with NBSP set. */
  lemma BreakingInputsExist()
    ensures var doc := Edited(DANGLING, [SetEdit([98], [50])]); ToRecord(Reread(doc)) != ToRecord(doc.lines)
    ensures var doc := Edited([], [SetEdit([NBSP], [49])]); ToRecord(Reread(doc)) != ToRecord(doc.lines)
  {
    hide Reread, Edited, ToRecord;
    DanglingIsLost();
    NbspIsLost();
  }

  lemma DanglingIsLost()
    ensures var doc := Edited(DANGLING, [SetEdit([98], [50])]); ToRecord(Reread(doc)) != ToRecord(doc.lines)
  {
    hide Reread, Edited, ParseDocument;
    var lines := ParseDocument(DANGLING).lines;
    DanglingLines();
    LastEntryIsEffective(lines, [98]);
    assert lines == [lines[0]];
    LoneEntry(lines[0]);
    DanglingSourceBreaks(DANGLING, [98], [50]);
  }

  lemma NbspIsLost()
    ensures var doc := Edited([], [SetEdit([NBSP], [49])]); ToRecord(Reread(doc)) != ToRecord(doc.lines)
  {
    hide Reread, Edited;
    assert PhysicalLines([]) == [];
    assert ParseDocument([]).lines == [];
    LostHeadBreaks([], [NBSP], [49]);
  }
}
