/** A .properties file as lines: reading text into lines and printing lines back. */
module PropertyLines {
  import opened JsText
  import opened PropertyEntry

  /** `spelling` is None once the entry was changed and has to be serialised again. */
  datatype Line = TextLine(raw: Text) | Entry(key: Text, value: Text, spelling: Option<Text>)

  datatype Document = Document(lines: seq<Line>, eol: Text, trailingEol: bool)

  /** Blank lines and comments. */
  predicate IsNote(head: Text) {
    head == [] || IsNoteMark(head[0])
  }

  function DetectEol(text: Text): (eol: Text)
    ensures IsEol(eol)
  {
    if exists i :: 0 <= i < |text| - 1 && text[i] == CR && text[i + 1] == LF then [CR, LF] else [LF]
  }

  datatype Gathered = Gathered(logical: Text, parts: seq<Text>, rest: seq<Text>)

  /** Joins continuation lines onto a logical line, `parts` are the physical lines used. */
  function Gather(logical: Text, parts: seq<Text>, rest: seq<Text>): (g: Gathered)
    ensures |g.rest| <= |rest| && |g.parts| >= |parts|
    ensures g.parts + g.rest == parts + rest
    ensures Continues(g.logical) ==> g.rest == []
    decreases |rest|
  {
    if Continues(logical) && rest != [] then
      assert parts + rest == parts + [rest[0]] + rest[1..];
      Gather(logical[..|logical| - 1] + SkipBlanks(rest[0]), parts + [rest[0]], rest[1..])
    else
      Gathered(logical, parts, rest)
  }

  /** A backslash with no line left to continue on is dropped. */
  function DropDangling(logical: Text): Text {
    if Continues(logical) then logical[..|logical| - 1] else logical
  }

  function GatherFirst(physical: seq<Text>): (g: Gathered)
    requires physical != []
    ensures |g.rest| < |physical| && g.parts + g.rest == physical
  {
    var g := Gather(TrimStart(physical[0]), [physical[0]], physical[1..]);
    assert [physical[0]] + physical[1..] == physical;
    g
  }

  function EntryOf(g: Gathered, eol: Text): Line {
    var kv := ParseEntry(DropDangling(g.logical));
    Entry(kv.key, kv.value, Some(Join(g.parts, eol)))
  }

  function ParseLines(physical: seq<Text>, eol: Text): seq<Line>
    decreases |physical|
  {
    if physical == [] then []
    else if IsNote(TrimStart(physical[0])) then [TextLine(physical[0])] + ParseLines(physical[1..], eol)
    else
      var g := GatherFirst(physical);
      [EntryOf(g, eol)] + ParseLines(g.rest, eol)
  }

  function EndsWithTerminator(text: Text): bool {
    text == [] || SplitLines(text)[|SplitLines(text)| - 1] == []
  }

  /** The physical lines, without the empty one after a final terminator. */
  function PhysicalLines(text: Text): seq<Text> {
    var all := SplitLines(text);
    if EndsWithTerminator(text) then all[..|all| - 1] else all
  }

  function ParseDocument(text: Text): Document {
    var eol := DetectEol(text);
    Document(ParseLines(PhysicalLines(text), eol), eol, EndsWithTerminator(text))
  }

  function Spelling(line: Line): Text {
    match line
    case TextLine(raw) => raw
    case Entry(_, _, Some(raw)) => raw
    case Entry(key, value, None) => Serialise(key, value)
  }

  function Spellings(lines: seq<Line>): (r: seq<Text>)
    ensures |r| == |lines|
  {
    if lines == [] then [] else [Spelling(lines[0])] + Spellings(lines[1..])
  }

  function Print(doc: Document): Text {
    var body := Join(Spellings(doc.lines), doc.eol);
    if doc.trailingEol && |doc.lines| > 0 then body + doc.eol else body
  }

  // ----- printing an untouched document

  /** The text with every line terminator replaced by `eol`. */
  function WithEol(s: Text, eol: Text): Text {
    if s == [] then []
    else if s[0] == CR && |s| > 1 && s[1] == LF then eol + WithEol(s[2..], eol)
    else if IsTerminator(s[0]) then eol + WithEol(s[1..], eol)
    else [s[0]] + WithEol(s[1..], eol)
  }

  lemma JoinPush(c: CodeUnit, lines: seq<Text>, eol: Text)
    requires |lines| >= 1
    ensures Join(Push(c, lines), eol) == [c] + Join(lines, eol)
  {
    assert Push(c, lines)[1..] == lines[1..];
  }

  lemma JoinEmptyFirst(lines: seq<Text>, eol: Text)
    requires |lines| >= 1
    ensures Join([[]] + lines, eol) == eol + Join(lines, eol)
  {
    assert ([[]] + lines)[1..] == lines;
  }

  lemma {:induction false} JoinSplit(s: Text, eol: Text)
    ensures Join(SplitLines(s), eol) == WithEol(s, eol)
  {
    if s == [] {
    } else if s[0] == CR && |s| > 1 && s[1] == LF {
      JoinSplit(s[2..], eol);
      JoinEmptyFirst(SplitLines(s[2..]), eol);
    } else if IsTerminator(s[0]) {
      JoinSplit(s[1..], eol);
      JoinEmptyFirst(SplitLines(s[1..]), eol);
    } else {
      JoinSplit(s[1..], eol);
      JoinPush(s[0], SplitLines(s[1..]), eol);
    }
  }

  /** However lines group into entries, their spellings still print the physical lines. */
  lemma {:induction false} ParsedSpellings(physical: seq<Text>, eol: Text)
    ensures var lines := ParseLines(physical, eol);
            (lines == [] <==> physical == []) && Join(Spellings(lines), eol) == Join(physical, eol)
    decreases |physical|
  {
    if physical != [] {
      var lines := ParseLines(physical, eol);
      var used, rest := [physical[0]], physical[1..];
      if !IsNote(TrimStart(physical[0])) {
        used, rest := GatherFirst(physical).parts, GatherFirst(physical).rest;
      }
      assert physical == used + rest && lines[1..] == ParseLines(rest, eol);
      assert Spelling(lines[0]) == Join(used, eol);
      ParsedSpellings(rest, eol);
      if rest == [] {
        assert physical == used;
      } else {
        JoinConcat(used, rest, eol);
        assert Spellings(lines)[1..] == Spellings(lines[1..]);
      }
    }
  }

  lemma JoinLastEmpty(lines: seq<Text>, eol: Text)
    requires |lines| >= 2 && lines[|lines| - 1] == []
    ensures Join(lines, eol) == Join(lines[..|lines| - 1], eol) + eol
  {
    JoinConcat(lines[..|lines| - 1], [[]], eol);
    assert lines == lines[..|lines| - 1] + [[]];
  }

  lemma DropLastEmpty(all: seq<Text>, eol: Text)
    requires |all| >= 1 && all[|all| - 1] == []
    ensures var kept := all[..|all| - 1]; Join(kept, eol) + (if kept != [] then eol else []) == Join(all, eol)
  {
    if |all| == 1 {
      assert all[..0] == [];
    } else {
      JoinLastEmpty(all, eol);
    }
  }

  lemma JoinPhysical(text: Text, eol: Text)
    ensures var physical := PhysicalLines(text);
            Join(physical, eol) + (if EndsWithTerminator(text) && physical != [] then eol else [])
            == Join(SplitLines(text), eol)
  {
    if EndsWithTerminator(text) {
      TerminatorSplits(text);
      DropLastEmpty(SplitLines(text), eol);
    } else {
      assert Join(SplitLines(text), eol) + [] == Join(SplitLines(text), eol);
    }
  }

  /** Printing a document that was only read gives the text back, terminators made alike. */
  lemma FaithfulPrint(text: Text)
    ensures Print(ParseDocument(text)) == WithEol(text, DetectEol(text))
  {
    var eol := DetectEol(text);
    JoinSplit(text, eol);
    JoinPhysical(text, eol);
    PrintParsed(PhysicalLines(text), eol, EndsWithTerminator(text));
  }

  lemma PrintParsed(physical: seq<Text>, eol: Text, trailingEol: bool)
    ensures Print(Document(ParseLines(physical, eol), eol, trailingEol))
         == Join(physical, eol) + if trailingEol && physical != [] then eol else []
  {
    ParsedSpellings(physical, eol);
    assert Join(physical, eol) + [] == Join(physical, eol);
  }

  lemma TerminatorSplits(text: Text)
    requires EndsWithTerminator(text)
    ensures SplitLines(text)[|SplitLines(text)| - 1] == []
  {
  }

  /** All terminators are LF. */
  predicate UniformlyLf(s: Text) {
    CR !in s
  }

  /** All terminators are CR LF. */
  predicate UniformlyCrLf(s: Text) {
    && (forall i :: 0 <= i < |s| && s[i] == CR ==> i + 1 < |s| && s[i + 1] == LF)
    && (forall i :: 0 <= i < |s| && s[i] == LF ==> i > 0 && s[i - 1] == CR)
  }

  lemma {:induction false} WithEolIsUniform(s: Text, eol: Text)
    requires IsEol(eol)
    ensures if eol == [LF] then UniformlyLf(WithEol(s, eol)) else UniformlyCrLf(WithEol(s, eol))
  {
    if s != [] {
      WithEolIsUniform(s[1..], eol);
      if |s| > 1 { WithEolIsUniform(s[2..], eol); }
    }
  }

  lemma {:induction false} UniformLfStays(s: Text)
    requires UniformlyLf(s)
    ensures WithEol(s, [LF]) == s
  {
    if s != [] {
      UniformLfStays(s[1..]);
      assert [s[0]] + s[1..] == s;
    }
  }

  lemma {:induction false} UniformCrLfStays(s: Text)
    requires UniformlyCrLf(s)
    ensures WithEol(s, [CR, LF]) == s
  {
    if s == [] {
    } else if s[0] == CR {
      assert s[1] == LF && (|s| > 2 ==> s[2] != LF);
      assert UniformlyCrLf(s[2..]) by {
        assert forall i :: 0 <= i < |s| - 2 ==> s[2..][i] == s[i + 2];
      }
      UniformCrLfStays(s[2..]);
      assert [CR, LF] + s[2..] == s;
    } else {
      assert s[0] != LF && (|s| > 1 ==> s[1] != LF);
      assert UniformlyCrLf(s[1..]) by {
        assert forall i :: 0 <= i < |s| - 1 ==> s[1..][i] == s[i + 1];
      }
      UniformCrLfStays(s[1..]);
      assert [s[0]] + s[1..] == s;
    }
  }

  /** Reading and printing is the identity exactly on texts with one kind of terminator. */
  lemma PrintIsIdentityWhenUniform(text: Text)
    ensures Print(ParseDocument(text)) == text <==> UniformlyLf(text) || UniformlyCrLf(text)
  {
    var eol := DetectEol(text);
    FaithfulPrint(text);
    WithEolIsUniform(text, eol);
    if UniformlyLf(text) {
      UniformLfStays(text);
    } else if UniformlyCrLf(text) {
      var i :| 0 <= i < |text| && text[i] == CR;
      assert text[i + 1] == LF;
      UniformCrLfStays(text);
    }
  }
}
