/** The edits of a .properties document on its lines, and what they mean for the effective record. */
module PropertyEdits {
  import opened JsText
  import opened PropertyLines

  type Record = map<Text, Text>

  predicate IsEntryOf(line: Line, key: Text) {
    line.Entry? && line.key == key
  }

  /** Index of the effective entry of a key, the last one; `|lines|` when there is none. */
  function LastIndex(lines: seq<Line>, key: Text): (i: nat)
    ensures i <= |lines|
    ensures i < |lines| ==> IsEntryOf(lines[i], key)
    ensures forall j :: 0 <= j < |lines| && (i < j || i == |lines|) ==> !IsEntryOf(lines[j], key)
  {
    if lines == [] then 0
    else if IsEntryOf(lines[|lines| - 1], key) then |lines| - 1
    else
      var i := LastIndex(lines[..|lines| - 1], key);
      if i == |lines| - 1 then |lines| else i
  }

  /** Effective values: a later duplicate wins. */
  function ToRecord(lines: seq<Line>): Record {
    if lines == [] then map[]
    else
      var before := ToRecord(lines[..|lines| - 1]);
      match lines[|lines| - 1]
      case TextLine(_) => before
      case Entry(key, value, _) => before[key := value]
  }

  function SetEntry(lines: seq<Line>, key: Text, value: Text): seq<Line> {
    var i := LastIndex(lines, key);
    if i == |lines| then lines + [Entry(key, value, None)]
    else if lines[i].value == value then lines
    else lines[i := Entry(key, value, None)]
  }

  function DeleteEntries(lines: seq<Line>, key: Text): seq<Line> {
    if lines == [] then []
    else (if IsEntryOf(lines[0], key) then [] else [lines[0]]) + DeleteEntries(lines[1..], key)
  }

  /** Drops every entry whose key is not in `keys`. */
  function KeepKeys(lines: seq<Line>, keys: set<Text>): seq<Line> {
    if lines == [] then []
    else (if lines[0].Entry? && lines[0].key !in keys then [] else [lines[0]]) + KeepKeys(lines[1..], keys)
  }

  /** `Object.entries` of a record: its pairs in enumeration order, keys distinct. */
  type Pairs = seq<(Text, Text)>

  predicate DistinctKeys(pairs: Pairs) {
    forall i, j :: 0 <= i < j < |pairs| ==> pairs[i].0 != pairs[j].0
  }

  function KeysOf(pairs: Pairs): set<Text> {
    set i | 0 <= i < |pairs| :: pairs[i].0
  }

  function SetAll(lines: seq<Line>, pairs: Pairs): seq<Line>
    decreases |pairs|
  {
    if pairs == [] then lines else SetAll(SetEntry(lines, pairs[0].0, pairs[0].1), pairs[1..])
  }

  function AssignEntries(lines: seq<Line>, pairs: Pairs): seq<Line> {
    SetAll(KeepKeys(lines, KeysOf(pairs)), pairs)
  }

  // ----- the record an edit leads to

  lemma {:induction false} ToRecordConcat(a: seq<Line>, b: seq<Line>)
    ensures ToRecord(a + b) == ToRecord(a) + ToRecord(b)
  {
    if b == [] {
      assert a + b == a;
    } else {
      var init := b[..|b| - 1];
      ToRecordConcat(a, init);
      assert (a + b)[..|a + b| - 1] == a + init;
    }
  }

  /** `get` by the last entry is a lookup in the effective record. */
  lemma {:induction false} LastEntryIsEffective(lines: seq<Line>, key: Text)
    ensures var i := LastIndex(lines, key);
            (key in ToRecord(lines) <==> i < |lines|) && (i < |lines| ==> ToRecord(lines)[key] == lines[i].value)
  {
    if lines != [] {
      LastEntryIsEffective(lines[..|lines| - 1], key);
    }
  }

  /** `set` updates exactly one key of the record. */
  lemma SetUpdatesRecord(lines: seq<Line>, key: Text, value: Text)
    ensures ToRecord(SetEntry(lines, key, value)) == ToRecord(lines)[key := value]
  {
    LastEntryIsEffective(lines, key);
    var i := LastIndex(lines, key);
    var renewed := Entry(key, value, None);
    if i == |lines| {
      ToRecordAround(lines, renewed, []);
      assert lines + [renewed] + [] == lines + [renewed];
    } else if lines[i].value != value {
      var a, b := lines[..i], lines[i + 1..];
      LastEntryIsEffective(b, key);
      assert lines == a + [lines[i]] + b;
      assert lines[i := renewed] == a + [renewed] + b;
      RespelledRecord(a, lines[i], b, value);
    }
  }

  lemma RespelledRecord(a: seq<Line>, line: Line, b: seq<Line>, value: Text)
    requires line.Entry? && line.key !in ToRecord(b)
    ensures ToRecord(a + [Entry(line.key, value, None)] + b) == ToRecord(a + [line] + b)[line.key := value]
  {
    ToRecordAround(a, line, b);
    ToRecordAround(a, Entry(line.key, value, None), b);
  }

  /** What one line says about the record. */
  function LineRecord(line: Line): Record {
    match line
    case TextLine(_) => map[]
    case Entry(key, value, _) => map[key := value]
  }

  lemma LoneLine(line: Line)
    ensures ToRecord([line]) == LineRecord(line)
  {
    assert [line][..0] == [];
  }

  lemma ToRecordCons(lines: seq<Line>)
    requires lines != []
    ensures ToRecord(lines) == LineRecord(lines[0]) + ToRecord(lines[1..])
  {
    assert lines == [lines[0]] + lines[1..];
    ToRecordConcat([lines[0]], lines[1..]);
    LoneLine(lines[0]);
  }

  lemma ToRecordAround(a: seq<Line>, line: Line, b: seq<Line>)
    ensures ToRecord(a + [line] + b) == ToRecord(a) + LineRecord(line) + ToRecord(b)
  {
    ToRecordConcat(a, [line]);
    ToRecordConcat(a + [line], b);
    LoneLine(line);
  }

  lemma ToRecordAfter(line: Line, rest: seq<Line>)
    ensures ToRecord([line] + rest) == LineRecord(line) + ToRecord(rest)
  {
    ToRecordConcat([line], rest);
    LoneLine(line);
  }

  /** The record without the keys outside a set. */
  function Restricted(record: Record, keys: set<Text>): Record {
    map key | key in record && key in keys :: record[key]
  }

  lemma RestrictedSum(a: Record, b: Record, keys: set<Text>)
    ensures Restricted(a + b, keys) == Restricted(a, keys) + Restricted(b, keys)
  {
  }

  lemma RestrictedLine(line: Line, keys: set<Text>)
    ensures Restricted(LineRecord(line), keys) == if line.Entry? && line.key !in keys then map[] else LineRecord(line)
  {
  }

  lemma {:induction false} KeepRestrictsRecord(lines: seq<Line>, keys: set<Text>)
    ensures ToRecord(KeepKeys(lines, keys)) == Restricted(ToRecord(lines), keys)
  {
    if lines != [] {
      KeepRestrictsRecord(lines[1..], keys);
      KeepRestrictsFirst(lines, keys);
    }
  }

  lemma KeepFirst(lines: seq<Line>, keys: set<Text>)
    requires lines != []
    ensures KeepKeys(lines, keys)
         == (if lines[0].Entry? && lines[0].key !in keys then [] else [lines[0]]) + KeepKeys(lines[1..], keys)
  {
  }

  lemma KeepRestrictsFirst(lines: seq<Line>, keys: set<Text>)
    requires lines != [] && ToRecord(KeepKeys(lines[1..], keys)) == Restricted(ToRecord(lines[1..]), keys)
    ensures ToRecord(KeepKeys(lines, keys)) == Restricted(ToRecord(lines), keys)
  {
    hide ToRecord, KeepKeys, Restricted, LineRecord;
    var line, rest := lines[0], KeepKeys(lines[1..], keys);
    KeepFirst(lines, keys);
    ToRecordCons(lines);
    RestrictedSum(LineRecord(line), ToRecord(lines[1..]), keys);
    RestrictedLine(line, keys);
    ToRecordAfter(line, rest);
    NothingBefore(rest);
    EmptyRecordBefore(ToRecord(rest));
  }

  lemma NothingBefore<T>(rest: seq<T>)
    ensures [] + rest == rest
  {
  }

  lemma EmptyRecordBefore(record: Record)
    ensures map[] + record == record
  {
  }

  lemma RemovedFromSum(a: Record, b: Record, key: Text)
    ensures (a + b) - {key} == (a - {key}) + (b - {key})
  {
  }

  lemma DeleteFirst(lines: seq<Line>, key: Text)
    requires lines != []
    ensures DeleteEntries(lines, key)
         == (if IsEntryOf(lines[0], key) then [] else [lines[0]]) + DeleteEntries(lines[1..], key)
  {
  }

  lemma LineWithout(line: Line, key: Text)
    ensures LineRecord(line) - {key} == if IsEntryOf(line, key) then map[] else LineRecord(line)
  {
  }

  /** `delete` removes exactly one key of the record, duplicates included. */
  lemma {:induction false} DeleteRemovesKey(lines: seq<Line>, key: Text)
    ensures ToRecord(DeleteEntries(lines, key)) == ToRecord(lines) - {key}
  {
    if lines != [] {
      DeleteRemovesKey(lines[1..], key);
      DeleteRemovesFirst(lines, key);
    }
  }

  lemma DeleteRemovesFirst(lines: seq<Line>, key: Text)
    requires lines != [] && ToRecord(DeleteEntries(lines[1..], key)) == ToRecord(lines[1..]) - {key}
    ensures ToRecord(DeleteEntries(lines, key)) == ToRecord(lines) - {key}
  {
    hide ToRecord, DeleteEntries, LineRecord;
    var line, rest := lines[0], DeleteEntries(lines[1..], key);
    DeleteFirst(lines, key);
    ToRecordCons(lines);
    RemovedFromSum(LineRecord(line), ToRecord(lines[1..]), key);
    LineWithout(line, key);
    ToRecordAfter(line, rest);
    NothingBefore(rest);
    EmptyRecordBefore(ToRecord(rest));
  }

  function RecordOf(pairs: Pairs): Record {
    if pairs == [] then map[] else map[pairs[0].0 := pairs[0].1] + RecordOf(pairs[1..])
  }

  lemma KeysOfCons(pairs: Pairs)
    requires pairs != []
    ensures KeysOf(pairs) == {pairs[0].0} + KeysOf(pairs[1..])
  {
    assert forall i :: 0 < i < |pairs| ==> pairs[i].0 == pairs[1..][i - 1].0;
    assert forall i :: 0 <= i < |pairs| - 1 ==> pairs[1..][i].0 == pairs[i + 1].0;
  }

  lemma {:induction false} RecordOfKeys(pairs: Pairs)
    ensures RecordOf(pairs).Keys == KeysOf(pairs)
  {
    if pairs != [] {
      RecordOfKeys(pairs[1..]);
      KeysOfCons(pairs);
    }
  }

  lemma {:induction false} SetAllUpdatesRecord(lines: seq<Line>, pairs: Pairs)
    ensures ToRecord(SetAll(lines, pairs)) == ToRecord(lines) + RecordOf(pairs)
    decreases |pairs|
  {
    if pairs != [] {
      hide SetEntry, ToRecord;
      SetUpdatesRecord(lines, pairs[0].0, pairs[0].1);
      SetAllUpdatesRecord(SetEntry(lines, pairs[0].0, pairs[0].1), pairs[1..]);
    }
  }

  /** `assign(r)` makes the effective record equal to r, whatever the document held. */
  lemma AssignGivesRecord(lines: seq<Line>, pairs: Pairs)
    ensures ToRecord(AssignEntries(lines, pairs)) == RecordOf(pairs)
  {
    KeepRestrictsRecord(lines, KeysOf(pairs));
    SetAllUpdatesRecord(KeepKeys(lines, KeysOf(pairs)), pairs);
    RecordOfKeys(pairs);
  }

  // ----- what an assignment leaves alone

  /** A line after the assignment: only the effective entry of a key whose value changes is respelled. */
  function Patched(lines: seq<Line>, i: nat, record: Record): Line
    requires i < |lines|
  {
    match lines[i]
    case TextLine(_) => lines[i]
    case Entry(key, value, _) =>
      if key in record && LastIndex(lines, key) == i && record[key] != value then Entry(key, record[key], None)
      else lines[i]
  }

  /** The pairs whose key has no entry yet, as new entries in the order of the record. */
  function Appended(lines: seq<Line>, pairs: Pairs): seq<Line> {
    if pairs == [] then []
    else
      (if LastIndex(lines, pairs[0].0) == |lines| then [Entry(pairs[0].0, pairs[0].1, None)] else [])
      + Appended(lines, pairs[1..])
  }

  /** Describes SetAll without running it: old lines patched in place, then the new entries. */
  ghost predicate IsPatched(lines: seq<Line>, pairs: Pairs, result: seq<Line>) {
    && |result| == |lines| + |Appended(lines, pairs)|
    && (forall i :: 0 <= i < |lines| ==> result[i] == Patched(lines, i, RecordOf(pairs)))
    && result[|lines|..] == Appended(lines, pairs)
  }

  lemma {:induction false} AppendedAfterSet(lines: seq<Line>, key: Text, value: Text, pairs: Pairs)
    requires key !in KeysOf(pairs)
    ensures Appended(SetEntry(lines, key, value), pairs) == Appended(lines, pairs)
  {
    if pairs != [] {
      KeysOfCons(pairs);
      SetKeepsOthers(lines, key, value, pairs[0].0);
      AppendedAfterSet(lines, key, value, pairs[1..]);
    }
  }

  lemma LastIndexUnique(lines: seq<Line>, key: Text, i: nat)
    requires i < |lines| && IsEntryOf(lines[i], key)
    requires forall j :: i < j < |lines| ==> !IsEntryOf(lines[j], key)
    ensures LastIndex(lines, key) == i
  {
  }

  /** Setting one key moves no entry of another. */
  lemma SetKeepsOthers(lines: seq<Line>, key: Text, value: Text, other: Text)
    requires key != other
    ensures var after := SetEntry(lines, key, value);
            if LastIndex(lines, other) == |lines| then LastIndex(after, other) == |after|
            else LastIndex(after, other) == LastIndex(lines, other)
  {
    var after := SetEntry(lines, key, value);
    var i := LastIndex(lines, other);
    if i < |lines| {
      assert after[i] == lines[i];
      LastIndexUnique(after, other, i);
    } else {
      assert forall j :: 0 <= j < |after| ==> !IsEntryOf(after[j], other);
    }
  }

  lemma {:induction false} SetAllPatches(lines: seq<Line>, pairs: Pairs)
    requires DistinctKeys(pairs)
    ensures IsPatched(lines, pairs, SetAll(lines, pairs))
    decreases |pairs|
  {
    if pairs == [] {
      assert forall i :: 0 <= i < |lines| ==> Patched(lines, i, map[]) == lines[i];
    } else {
      NotAmongRest(pairs);
      SetAllPatches(SetEntry(lines, pairs[0].0, pairs[0].1), pairs[1..]);
      PatchesFirst(lines, pairs, SetAll(lines, pairs));
    }
  }

  lemma PatchesFirst(lines: seq<Line>, pairs: Pairs, result: seq<Line>)
    requires DistinctKeys(pairs) && pairs != []
    requires IsPatched(SetEntry(lines, pairs[0].0, pairs[0].1), pairs[1..], result)
    ensures IsPatched(lines, pairs, result)
  {
    hide SetEntry, Patched, RecordOf, LastIndex, Appended;
    var after := SetEntry(lines, pairs[0].0, pairs[0].1);
    AppendedFirst(lines, pairs);
    SetLength(lines, pairs[0].0, pairs[0].1);
    forall i | 0 <= i < |lines|
      ensures i < |result| && result[i] == Patched(lines, i, RecordOf(pairs))
    {
      PatchAfterSet(lines, pairs, i);
    }
    if LastIndex(lines, pairs[0].0) == |lines| {
      PatchedNew(lines, pairs);
      assert result[|lines|..] == [result[|lines|]] + result[|after|..];
    }
  }

  lemma SetLength(lines: seq<Line>, key: Text, value: Text)
    ensures |SetEntry(lines, key, value)| == |lines| + if LastIndex(lines, key) == |lines| then 1 else 0
  {
  }

  lemma AppendedFirst(lines: seq<Line>, pairs: Pairs)
    requires DistinctKeys(pairs) && pairs != []
    ensures Appended(lines, pairs)
         == (if LastIndex(lines, pairs[0].0) == |lines| then [Entry(pairs[0].0, pairs[0].1, None)] else [])
            + Appended(SetEntry(lines, pairs[0].0, pairs[0].1), pairs[1..])
  {
    NotAmongRest(pairs);
    AppendedAfterSet(lines, pairs[0].0, pairs[0].1, pairs[1..]);
  }

  lemma NotAmongRest(pairs: Pairs)
    requires DistinctKeys(pairs) && pairs != []
    ensures pairs[0].0 !in KeysOf(pairs[1..]) && DistinctKeys(pairs[1..])
  {
    assert forall i :: 0 <= i < |pairs| - 1 ==> pairs[1..][i] == pairs[i + 1];
  }

  lemma PatchOfOther(lines: seq<Line>, key: Text, value: Text, i: nat, record: Record)
    requires i < |lines| && lines[i].Entry? && lines[i].key != key && key !in record
    ensures |lines| <= |SetEntry(lines, key, value)|
    ensures Patched(SetEntry(lines, key, value), i, record) == Patched(lines, i, map[key := value] + record)
  {
    SetKeepsOthers(lines, key, value, lines[i].key);
  }

  lemma PatchOfOwn(lines: seq<Line>, key: Text, value: Text, i: nat, record: Record)
    requires i < |lines| && IsEntryOf(lines[i], key) && key !in record
    ensures |lines| <= |SetEntry(lines, key, value)|
    ensures Patched(SetEntry(lines, key, value), i, record) == Patched(lines, i, map[key := value] + record)
  {
  }

  lemma PatchAfterSet(lines: seq<Line>, pairs: Pairs, i: nat)
    requires DistinctKeys(pairs) && pairs != [] && i < |lines|
    ensures |lines| <= |SetEntry(lines, pairs[0].0, pairs[0].1)|
    ensures Patched(SetEntry(lines, pairs[0].0, pairs[0].1), i, RecordOf(pairs[1..]))
         == Patched(lines, i, RecordOf(pairs))
  {
    var key, value := pairs[0].0, pairs[0].1;
    NotAmongRest(pairs);
    RecordOfKeys(pairs[1..]);
    SetLength(lines, key, value);
    assert RecordOf(pairs) == map[key := value] + RecordOf(pairs[1..]);
    hide RecordOf, SetEntry, LastIndex, KeysOf;
    if IsEntryOf(lines[i], key) {
      PatchOfOwn(lines, key, value, i, RecordOf(pairs[1..]));
    } else if lines[i].Entry? {
      PatchOfOther(lines, key, value, i, RecordOf(pairs[1..]));
    } else {
      PatchOfText(lines, key, value, i);
    }
  }

  lemma PatchOfText(lines: seq<Line>, key: Text, value: Text, i: nat)
    requires i < |lines| && lines[i].TextLine?
    ensures i < |SetEntry(lines, key, value)| && SetEntry(lines, key, value)[i] == lines[i]
  {
  }

  lemma PatchedNew(lines: seq<Line>, pairs: Pairs)
    requires DistinctKeys(pairs) && pairs != [] && LastIndex(lines, pairs[0].0) == |lines|
    ensures var after := SetEntry(lines, pairs[0].0, pairs[0].1);
            Patched(after, |lines|, RecordOf(pairs[1..])) == Entry(pairs[0].0, pairs[0].1, None)
  {
    NotAmongRest(pairs);
    RecordOfKeys(pairs[1..]);
  }

  /** Comments and blank lines in order. */
  function TextLines(lines: seq<Line>): seq<Line> {
    if lines == [] then []
    else (if lines[0].TextLine? then [lines[0]] else []) + TextLines(lines[1..])
  }

  lemma {:induction false} TextLinesConcat(a: seq<Line>, b: seq<Line>)
    ensures TextLines(a + b) == TextLines(a) + TextLines(b)
  {
    if a == [] {
      assert a + b == b;
    } else {
      TextLinesConcat(a[1..], b);
      Uncons(a, b);
      Assoc(if a[0].TextLine? then [a[0]] else [], TextLines(a[1..]), TextLines(b));
    }
  }

  lemma {:induction false} KeepKeepsText(lines: seq<Line>, keys: set<Text>)
    ensures TextLines(KeepKeys(lines, keys)) == TextLines(lines)
  {
    if lines != [] {
      KeepKeepsText(lines[1..], keys);
      var kept := if lines[0].Entry? && lines[0].key !in keys then [] else [lines[0]];
      TextLinesConcat(kept, KeepKeys(lines[1..], keys));
    }
  }

  lemma EntryIsNoText(a: seq<Line>, entry: Line, b: seq<Line>)
    requires entry.Entry?
    ensures TextLines(a + ([entry] + b)) == TextLines(a) + TextLines(b)
  {
    LoneEntryIsNoText(entry);
    hide TextLines;
    TextLinesConcat(a, [entry] + b);
    TextLinesConcat([entry], b);
    NothingBefore(TextLines(b));
  }

  lemma LoneEntryIsNoText(entry: Line)
    requires entry.Entry?
    ensures TextLines([entry]) == []
  {
    assert [entry][1..] == [];
  }

  lemma SetKeepsText(lines: seq<Line>, key: Text, value: Text)
    ensures TextLines(SetEntry(lines, key, value)) == TextLines(lines)
  {
    hide TextLines, LastIndex;
    var i := LastIndex(lines, key);
    var renewed := Entry(key, value, None);
    if i == |lines| {
      LoneEntryIsNoText(renewed);
      TextLinesConcat(lines, [renewed]);
      assert TextLines(lines) + [] == TextLines(lines);
    } else {
      AroundLine(lines, i, renewed);
      EntryIsNoText(lines[..i], lines[i], lines[i + 1..]);
      EntryIsNoText(lines[..i], renewed, lines[i + 1..]);
    }
  }

  lemma AroundLine(lines: seq<Line>, i: nat, line: Line)
    requires i < |lines|
    ensures lines == lines[..i] + ([lines[i]] + lines[i + 1..])
    ensures lines[i := line] == lines[..i] + ([line] + lines[i + 1..])
  {
  }

  lemma {:induction false} SetAllKeepsText(lines: seq<Line>, pairs: Pairs)
    ensures TextLines(SetAll(lines, pairs)) == TextLines(lines)
    decreases |pairs|
  {
    if pairs != [] {
      SetKeepsText(lines, pairs[0].0, pairs[0].1);
      SetAllKeepsText(SetEntry(lines, pairs[0].0, pairs[0].1), pairs[1..]);
    }
  }

  /**
   * `assign` makes the record equal and disturbs nothing else: text lines survive in order, surviving
   * entries are patched only where the effective value changes, new keys go last in record order.
   */
  lemma AssignDisturbsNothingElse(lines: seq<Line>, pairs: Pairs)
    requires DistinctKeys(pairs)
    ensures ToRecord(AssignEntries(lines, pairs)) == RecordOf(pairs)
    ensures TextLines(AssignEntries(lines, pairs)) == TextLines(lines)
    ensures IsPatched(KeepKeys(lines, KeysOf(pairs)), pairs, AssignEntries(lines, pairs))
  {
    AssignGivesRecord(lines, pairs);
    KeepKeepsText(lines, KeysOf(pairs));
    SetAllKeepsText(KeepKeys(lines, KeysOf(pairs)), pairs);
    SetAllPatches(KeepKeys(lines, KeysOf(pairs)), pairs);
  }
}
