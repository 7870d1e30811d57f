/** The document object: a list of lines that edits update in place. */
module EditableProperties {
  import opened JsText
  import opened Collections
  import opened PropertyEntry
  import opened PropertyLines
  import opened PropertyEdits
  import opened KeyOrder

  class PropertiesDocument {
    var lines: seq<Line>
    const eol: Text
    const trailingEol: bool

    ghost function View(): Document
      reads this
    {
      Document(lines, eol, trailingEol)
    }

    constructor (lines: seq<Line>, eol: Text, trailingEol: bool)
      ensures View() == Document(lines, eol, trailingEol)
    {
      this.lines, this.eol, this.trailingEol := lines, eol, trailingEol;
    }

    static method Parse(text: Text) returns (doc: PropertiesDocument)
      ensures fresh(doc) && doc.View() == ParseDocument(text)
    {
      var eol := DetectEol(text);
      var physical := SplitLines(text);
      var trailingEol := text == [] || physical[|physical| - 1] == [];
      if trailingEol {
        physical := physical[..|physical| - 1];
      }
      var lines := ReadLines(physical, eol);
      doc := new PropertiesDocument(lines, eol, trailingEol);
    }

    static method ReadLines(physical: seq<Text>, eol: Text) returns (lines: seq<Line>)
      ensures lines == ParseLines(physical, eol)
    {
      lines := [];
      var i := 0;
      assert physical[0..] == physical;
      while i < |physical|
        invariant 0 <= i <= |physical|
        invariant lines + ParseLines(physical[i..], eol) == ParseLines(physical, eol)
      {
        var head := TrimStart(physical[i]);
        ghost var here := physical[i..];
        assert here[0] == physical[i] && here[1..] == physical[i + 1..];
        var line;
        if head == [] || head[0] == HASH || head[0] == BANG {
          line := TextLine(physical[i]);
          i := i + 1;
        } else {
          line, i := ReadEntry(physical, i, eol);
        }
        ParsedOne(here, line, physical[i..], eol);
        Assoc(lines, [line], ParseLines(physical[i..], eol));
        lines := lines + [line];
      }
      assert physical[i..] == [] && lines + [] == lines;
    }

    /** Reads the entry that starts at line `start` with its continuation lines. */
    static method ReadEntry(physical: seq<Text>, start: nat, eol: Text) returns (entry: Line, next: nat)
      requires start < |physical|
      ensures start < next <= |physical|
      ensures var g := GatherFirst(physical[start..]);
              entry == EntryOf(g, eol) && physical[next..] == g.rest
    {
      var i := start;
      var rawParts := [physical[i]];
      var logical := TrimStart(physical[i]);
      ghost var g := GatherFirst(physical[start..]);
      assert physical[start..][1..] == physical[i + 1..];
      var continues := EndsWithContinuation(logical);
      while continues && i + 1 < |physical|
        invariant start <= i < |physical|
        invariant continues == Continues(logical)
        invariant Gather(logical, rawParts, physical[i + 1..]) == g
      {
        assert physical[i + 1..][1..] == physical[i + 2..];
        i := i + 1;
        rawParts := rawParts + [physical[i]];
        logical := logical[..|logical| - 1] + SkipBlanks(physical[i]);
        continues := EndsWithContinuation(logical);
      }
      if continues {
        logical := logical[..|logical| - 1];
      }
      var kv := ParseEntryLine(logical);
      entry := Entry(kv.key, kv.value, Some(Join(rawParts, eol)));
      next := i + 1;
    }

    /** Index of the last entry of the key, -1 when there is none. */
    method LastEntry(key: Text) returns (i: int)
      ensures i == if LastIndex(lines, key) == |lines| then -1 else LastIndex(lines, key)
    {
      i := |lines| - 1;
      while i >= 0
        invariant -1 <= i < |lines|
        invariant forall j :: i < j < |lines| ==> !IsEntryOf(lines[j], key)
      {
        if lines[i].Entry? && lines[i].key == key {
          LastIndexUnique(lines, key, i);
          return;
        }
        i := i - 1;
      }
    }

    method Get(key: Text) returns (value: Option<Text>)
      ensures value == if key in ToRecord(lines) then Some(ToRecord(lines)[key]) else None
    {
      LastEntryIsEffective(lines, key);
      var i := LastEntry(key);
      value := if i < 0 then None else Some(lines[i].value);
    }

    method Has(key: Text) returns (r: bool)
      ensures r == (key in ToRecord(lines))
    {
      LastEntryIsEffective(lines, key);
      var i := LastEntry(key);
      r := i >= 0;
    }

    /** The effective record, and its keys as the map they are collected in orders them. */
    method EffectiveValues() returns (values: Record, inserted: seq<Text>)
      ensures values == ToRecord(lines) && inserted == FirstSeen(lines)
    {
      values, inserted := map[], [];
      var i := 0;
      while i < |lines|
        invariant 0 <= i <= |lines|
        invariant values == ToRecord(lines[..i]) && inserted == FirstSeen(lines[..i])
      {
        assert lines[..i + 1][..i] == lines[..i];
        FirstSeenKeys(lines[..i]);
        if lines[i].Entry? {
          assert lines[i].key in values <==> lines[i].key in Elements(inserted);
          if lines[i].key !in values { inserted := inserted + [lines[i].key]; }
          values := values[lines[i].key := lines[i].value];
        }
        i := i + 1;
      }
      assert lines[..i] == lines;
    }

    /** The keys of the effective record, each once, in the order the runtime lists them. */
    method Keys() returns (keys: seq<Text>)
      ensures NoRepeats(keys) && Elements(keys) == ToRecord(lines).Keys && InEnumerationOrder(lines, keys)
    {
      var _, inserted := EffectiveValues();
      EnumerationOrder(lines);
      keys := Enumerated(inserted);
    }

    method Set(key: Text, value: Text)
      modifies this`lines
      ensures lines == SetEntry(old(lines), key, value)
    {
      var i := LastEntry(key);
      if i < 0 {
        lines := lines + [Entry(key, value, None)];
        return;
      }
      if lines[i].value == value { return; }
      lines := lines[i := Entry(key, value, None)];
    }

    method Delete(key: Text) returns (removed: bool)
      modifies this`lines
      ensures lines == DeleteEntries(old(lines), key)
      ensures removed <==> key in ToRecord(old(lines))
    {
      removed := false;
      var i := |lines| - 1;
      ghost var was := lines;
      while i >= 0
        invariant -1 <= i < |was|
        invariant lines == was[..i + 1] + DeleteEntries(was[i + 1..], key)
        invariant removed <==> exists j :: i < j < |was| && IsEntryOf(was[j], key)
      {
        DeleteHere(was, i, key);
        CutAt(was, i, DeleteEntries(was[i + 1..], key));
        var line := lines[i];
        if line.Entry? && line.key == key {
          lines := lines[..i] + lines[i + 1..];
          removed := true;
        }
        i := i - 1;
      }
      assert was[0..] == was;
      LastEntryIsEffective(was, key);
    }

    /** Deletes the keys that are not given, one by one. */
    method DeleteOthers(given: set<Text>)
      modifies this`lines
      ensures lines == KeepKeys(old(lines), given)
    {
      hide KeepKeys, ToRecord, DeleteEntries, InEnumerationOrder, Elements;
      var keys := Keys();
      ghost var was := lines;
      KeepAll(was, given + Elements(keys));
      var i := 0;
      assert keys[0..] == keys;
      while i < |keys|
        invariant 0 <= i <= |keys|
        invariant lines == KeepKeys(was, given + Elements(keys[i..]))
      {
        OneLess(was, given, keys, i);
        if keys[i] !in given {
          var _ := Delete(keys[i]);
        }
        i := i + 1;
      }
      NothingLeft(given, keys);
    }

    /** `record` lists the pairs of the record in enumeration order. */
    method Assign(record: Pairs)
      modifies this`lines
      ensures lines == AssignEntries(old(lines), record)
    {
      ghost var was := lines;
      DeleteOthers(KeysOf(record));
      var i := 0;
      assert record[0..] == record;
      while i < |record|
        invariant 0 <= i <= |record|
        invariant SetAll(lines, record[i..]) == AssignEntries(was, record)
      {
        assert record[i..][1..] == record[i + 1..];
        Set(record[i].0, record[i].1);
        i := i + 1;
      }
    }

    method ToText() returns (text: Text)
      ensures text == Print(View())
    {
      var parts: seq<Text> := [];
      var i := 0;
      assert lines[0..] == lines;
      while i < |lines|
        invariant 0 <= i <= |lines|
        invariant parts + Spellings(lines[i..]) == Spellings(lines)
      {
        assert lines[i..][1..] == lines[i + 1..];
        Assoc(parts, [Spelling(lines[i])], Spellings(lines[i + 1..]));
        parts := parts + [Spelling(lines[i])];
        i := i + 1;
      }
      assert lines[i..] == [] && parts + [] == parts;
      var body := Join(parts, eol);
      text := if trailingEol && |lines| > 0 then body + eol else body;
    }
  }

  /** Deleting one more key that is not given. */
  lemma OneLess(was: seq<Line>, given: set<Text>, keys: seq<Text>, i: nat)
    requires NoRepeats(keys) && i < |keys|
    ensures var kept := KeepKeys(was, given + Elements(keys[i..]));
            KeepKeys(was, given + Elements(keys[i + 1..]))
            == if keys[i] in given then kept else DeleteEntries(kept, keys[i])
  {
    hide KeepKeys, DeleteEntries;
    RestWithout(given, keys, i);
    DeleteAfterKeep(was, given + Elements(keys[i..]), keys[i]);
  }

  lemma RestWithout(given: set<Text>, keys: seq<Text>, i: nat)
    requires NoRepeats(keys) && i < |keys|
    ensures given + Elements(keys[i + 1..])
         == if keys[i] in given then given + Elements(keys[i..]) else given + Elements(keys[i..]) - {keys[i]}
  {
    assert keys[i..][1..] == keys[i + 1..];
    ElementsCons(keys[i..]);
    assert keys[i] !in Elements(keys[i + 1..]);
  }

  lemma NothingLeft(given: set<Text>, keys: seq<Text>)
    ensures given + Elements(keys[|keys|..]) == given
  {
  }

  lemma DeleteHere(lines: seq<Line>, i: nat, key: Text)
    requires i < |lines|
    ensures DeleteEntries(lines[i..], key)
         == (if IsEntryOf(lines[i], key) then [] else [lines[i]]) + DeleteEntries(lines[i + 1..], key)
  {
    assert lines[i..][0] == lines[i] && lines[i..][1..] == lines[i + 1..];
  }

  /** Splicing out line i of the part not looked at yet, or keeping it. */
  lemma CutAt(was: seq<Line>, i: nat, tail: seq<Line>)
    requires i < |was|
    ensures var lines := was[..i + 1] + tail;
            && lines[i] == was[i]
            && lines[..i] + lines[i + 1..] == was[..i] + ([] + tail)
            && lines == was[..i] + ([was[i]] + tail)
  {
  }

  lemma ParsedOne(here: seq<Text>, line: Line, rest: seq<Text>, eol: Text)
    requires here != []
    requires if IsNote(TrimStart(here[0])) then line == TextLine(here[0]) && rest == here[1..]
             else line == EntryOf(GatherFirst(here), eol) && rest == GatherFirst(here).rest
    ensures ParseLines(here, eol) == [line] + ParseLines(rest, eol)
  {
  }

  lemma {:induction false} KeepAll(lines: seq<Line>, keys: set<Text>)
    requires ToRecord(lines).Keys <= keys
    ensures KeepKeys(lines, keys) == lines
  {
    if lines != [] {
      assert [lines[0]] + lines[1..] == lines;
      ToRecordCons(lines);
      assert lines[0].Entry? ==> lines[0].key in LineRecord(lines[0]);
      KeepAll(lines[1..], keys);
    }
  }

  lemma {:induction false} DeleteConcat(a: seq<Line>, b: seq<Line>, key: Text)
    ensures DeleteEntries(a + b, key) == DeleteEntries(a, key) + DeleteEntries(b, key)
  {
    if a == [] {
      assert a + b == b;
    } else {
      DeleteConcat(a[1..], b, key);
      Uncons(a, b);
      Assoc(if IsEntryOf(a[0], key) then [] else [a[0]], DeleteEntries(a[1..], key), DeleteEntries(b, key));
    }
  }

  lemma {:induction false} DeleteAfterKeep(lines: seq<Line>, keys: set<Text>, key: Text)
    ensures DeleteEntries(KeepKeys(lines, keys), key) == KeepKeys(lines, keys - {key})
  {
    if lines != [] {
      var kept := if lines[0].Entry? && lines[0].key !in keys then [] else [lines[0]];
      DeleteConcat(kept, KeepKeys(lines[1..], keys), key);
      DeleteAfterKeep(lines[1..], keys, key);
    }
  }
}
