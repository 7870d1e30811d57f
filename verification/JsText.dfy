/** Strings as the panel's runtime sees them: sequences of UTF-16 code units. */
module JsText {

  datatype Option<+T> = None | Some(value: T)

  type CodeUnit = c: int | 0 <= c < 0x1_0000

  type Text = seq<CodeUnit>

  /** Names of servers, roles, accounts and records: only ever compared. */
  type Id = string

  predicate IsAscii(s: string) {
    forall i :: 0 <= i < |s| ==> s[i] < 128 as char
  }

  /** A literal as code units. */
  function Ascii(s: string): (t: Text)
    requires IsAscii(s)
    ensures |t| == |s| && forall i :: 0 <= i < |s| ==> t[i] == s[i] as int
  {
    seq(|s|, i requires 0 <= i < |s| => s[i] as CodeUnit)
  }

  const TAB: CodeUnit := 9
  const LF: CodeUnit := 10
  const VT: CodeUnit := 11
  const FF: CodeUnit := 12
  const CR: CodeUnit := 13
  const SPACE: CodeUnit := 32
  const BANG: CodeUnit := 33
  const HASH: CodeUnit := 35
  const COLON: CodeUnit := 58
  const EQUALS: CodeUnit := 61
  const BACKSLASH: CodeUnit := 92
  const NBSP: CodeUnit := 0xA0

  /** What `trim` and `trimStart` drop: white space and line terminators of ECMAScript. */
  predicate IsTrimmed(c: CodeUnit) {
    || 9 <= c <= 13 || c == 32 || c == 0xA0 || c == 0x1680 || 0x2000 <= c <= 0x200A
    || c == 0x2028 || c == 0x2029 || c == 0x202F || c == 0x205F || c == 0x3000 || c == 0xFEFF
  }

  /** ECMAScript's WhiteSpace and LineTerminator, one by one. */
  lemma TrimmedUnits(c: CodeUnit)
    ensures IsTrimmed(c) <==>
            c in {0x9, 0xA, 0xB, 0xC, 0xD, 0x20, 0xA0, 0x1680, 0x2000, 0x2001, 0x2002, 0x2003, 0x2004, 0x2005, 0x2006,
                  0x2007, 0x2008, 0x2009, 0x200A, 0x2028, 0x2029, 0x202F, 0x205F, 0x3000, 0xFEFF}
  {
  }

  function TrimStart(s: Text): (r: Text)
    ensures |r| <= |s| && r == s[|s| - |r|..]
    ensures r == [] || !IsTrimmed(r[0])
  {
    if s != [] && IsTrimmed(s[0]) then TrimStart(s[1..]) else s
  }

  function TrimEnd(s: Text): (r: Text)
    ensures r <= s
    ensures r == [] || !IsTrimmed(r[|r| - 1])
  {
    if s != [] && IsTrimmed(s[|s| - 1]) then TrimEnd(s[..|s| - 1]) else s
  }

  function Trim(s: Text): (r: Text)
  {
    TrimEnd(TrimStart(s))
  }

  /** `trim` takes away white space at both ends and nothing else. */
  lemma TrimIsExact(s: Text) returns (before: Text, after: Text)
    ensures s == before + Trim(s) + after
    ensures forall c :: c in before || c in after ==> IsTrimmed(c)
    ensures Trim(s) != [] ==> !IsTrimmed(Trim(s)[0]) && !IsTrimmed(Trim(s)[|Trim(s)| - 1])
  {
    hide IsTrimmed, TrimStart, TrimEnd;
    var t := TrimStart(s);
    before, after := s[..|s| - |t|], t[|Trim(s)|..];
    TrimDropsWhite(s);
    TrimEndDropsWhite(t);
    assert t == Trim(s) + after;
  }

  lemma {:induction false} TrimDropsWhite(s: Text)
    ensures forall i :: 0 <= i < |s| - |TrimStart(s)| ==> IsTrimmed(s[i])
  {
    hide IsTrimmed;
    if s != [] && IsTrimmed(s[0]) {
      var rest := s[1..];
      TrimDropsWhite(rest);
      assert TrimStart(s) == TrimStart(rest);
      assert forall i :: 1 <= i < |s| ==> s[i] == rest[i - 1];
    }
  }

  lemma {:induction false} TrimEndDropsWhite(s: Text)
    ensures forall i :: |TrimEnd(s)| <= i < |s| ==> IsTrimmed(s[i])
  {
    hide IsTrimmed;
    if s != [] && IsTrimmed(s[|s| - 1]) {
      TrimEndDropsWhite(s[..|s| - 1]);
    }
  }

  /** ASCII letters in lower case: what the NOCASE collation compares, and `toLowerCase` on ASCII text. */
  function FoldUnit(c: CodeUnit): CodeUnit {
    if 65 <= c <= 90 then c + 32 else c
  }

  lemma FoldsLetters(c: CodeUnit)
    ensures FoldUnit(c) == if 'A' as int <= c <= 'Z' as int then 'a' as int + (c - 'A' as int) else c
  {
  }

  function Fold(name: Text): (r: Text)
    ensures |r| == |name| && forall i :: 0 <= i < |name| ==> r[i] == FoldUnit(name[i])
  {
    seq(|name|, i requires 0 <= i < |name| => FoldUnit(name[i]))
  }

  lemma FoldConcat(a: Text, b: Text)
    ensures Fold(a + b) == Fold(a) + Fold(b)
  {
  }

  predicate IsTerminator(c: CodeUnit) {
    c == LF || c == CR
  }

  /** No line terminator inside. */
  predicate OneLine(s: Text) {
    forall i :: 0 <= i < |s| ==> !IsTerminator(s[i])
  }

  /** `text.split(/\r\n|\n|\r/)` */
  function SplitLines(s: Text): (r: seq<Text>)
    ensures |r| >= 1
  {
    if s == [] then [[]]
    else if s[0] == CR && |s| > 1 && s[1] == LF then [[]] + SplitLines(s[2..])
    else if IsTerminator(s[0]) then [[]] + SplitLines(s[1..])
    else Push(s[0], SplitLines(s[1..]))
  }

  function Push(c: CodeUnit, lines: seq<Text>): (r: seq<Text>)
    requires |lines| >= 1
    ensures |r| == |lines|
  {
    [[c] + lines[0]] + lines[1..]
  }

  /** `parts.join(separator)` */
  function Join(parts: seq<Text>, separator: Text): Text {
    if |parts| == 0 then []
    else if |parts| == 1 then parts[0]
    else parts[0] + separator + Join(parts[1..], separator)
  }

  lemma {:induction false} JoinConcat(a: seq<Text>, b: seq<Text>, separator: Text)
    requires |a| > 0 && |b| > 0
    ensures Join(a + b, separator) == Join(a, separator) + separator + Join(b, separator)
  {
    if |a| == 1 {
      assert (a + b)[1..] == b;
    } else {
      assert (a + b)[1..] == a[1..] + b;
      JoinConcat(a[1..], b, separator);
    }
  }

  lemma {:induction false} SplitOneLine(s: Text)
    requires OneLine(s)
    ensures SplitLines(s) == [s]
  {
    if s != [] {
      assert OneLine(s[1..]);
      SplitOneLine(s[1..]);
      assert [s[0]] + s[1..] == s;
    }
  }

  lemma {:induction false} SplitGivesLines(s: Text)
    ensures forall i :: 0 <= i < |SplitLines(s)| ==> OneLine(SplitLines(s)[i])
  {
    if s == [] {
    } else if s[0] == CR && |s| > 1 && s[1] == LF {
      SplitGivesLines(s[2..]);
    } else {
      SplitGivesLines(s[1..]);
    }
  }

  predicate EndsInCR(s: Text) {
    s != [] && s[|s| - 1] == CR
  }

  predicate IsEol(eol: Text) {
    eol == [LF] || eol == [CR, LF]
  }

  /** A separator between two texts separates their lines, unless it would complete a CR LF pair. */
  lemma {:induction false} SplitConcat(a: Text, eol: Text, b: Text)
    requires IsEol(eol) && !EndsInCR(a)
    ensures SplitLines(a + eol + b) == SplitLines(a) + SplitLines(b)
  {
    if a == [] {
      SplitLeadingEol(eol, b);
      assert a + eol + b == eol + b;
    } else if a[0] == CR && |a| > 1 && a[1] == LF {
      SplitConcat(a[2..], eol, b);
      SplitConcatPair(a[2..], eol, b);
      assert a == [CR, LF] + a[2..];
    } else {
      SplitConcat(a[1..], eol, b);
      SplitConcatUnit(a[0], a[1..], eol, b);
      assert a == [a[0]] + a[1..];
    }
  }

  lemma SplitConcatPair(a: Text, eol: Text, b: Text)
    requires SplitLines(a + eol + b) == SplitLines(a) + SplitLines(b)
    ensures SplitLines([CR, LF] + a + eol + b) == SplitLines([CR, LF] + a) + SplitLines(b)
  {
    Reassociate([CR, LF], a, eol, b);
    SplitPair(a + eol + b);
    SplitPair(a);
  }

  lemma SplitConcatUnit(c: CodeUnit, a: Text, eol: Text, b: Text)
    requires IsEol(eol) && (a == [] ==> c != CR) && !(c == CR && a != [] && a[0] == LF)
    requires SplitLines(a + eol + b) == SplitLines(a) + SplitLines(b)
    ensures SplitLines([c] + a + eol + b) == SplitLines([c] + a) + SplitLines(b)
  {
    Reassociate([c], a, eol, b);
    assert a != [] ==> (a + eol + b)[0] == a[0];
    SplitSingle(c, a);
    SplitSingle(c, a + eol + b);
    if IsTerminator(c) {
      Assoc([[]], SplitLines(a), SplitLines(b));
    } else {
      PushConcat(c, SplitLines(a), SplitLines(b));
    }
  }

  lemma Reassociate(a: Text, b: Text, c: Text, d: Text)
    ensures (a + b) + c + d == a + (b + c + d)
  {
  }

  lemma Assoc<T>(a: seq<T>, b: seq<T>, c: seq<T>)
    ensures a + (b + c) == a + b + c
  {
  }

  lemma Uncons<T>(a: seq<T>, b: seq<T>)
    requires a != []
    ensures a + b != [] && (a + b)[0] == a[0] && (a + b)[1..] == a[1..] + b
  {
  }

  lemma PushConcat(c: CodeUnit, a: seq<Text>, b: seq<Text>)
    requires |a| >= 1
    ensures Push(c, a + b) == Push(c, a) + b
  {
  }

  lemma {:induction false} SplitLeadingEol(eol: Text, b: Text)
    requires IsEol(eol)
    ensures SplitLines(eol + b) == [[]] + SplitLines(b)
  {
    if eol == [LF] { assert (eol + b)[1..] == b; } else { assert (eol + b)[2..] == b; }
  }

  lemma {:induction false} SplitPair(b: Text)
    ensures SplitLines([CR, LF] + b) == [[]] + SplitLines(b)
  {
    assert ([CR, LF] + b)[2..] == b;
  }

  lemma {:induction false} SplitSingle(c: CodeUnit, b: Text)
    requires !(c == CR && b != [] && b[0] == LF)
    ensures SplitLines([c] + b) == if IsTerminator(c) then [[]] + SplitLines(b) else Push(c, SplitLines(b))
  {
    assert ([c] + b)[1..] == b;
  }

  lemma {:induction false} SplitJoin(parts: seq<Text>, eol: Text)
    requires IsEol(eol) && |parts| > 0
    requires forall i :: 0 <= i < |parts| ==> OneLine(parts[i])
    ensures SplitLines(Join(parts, eol)) == parts
    ensures !EndsInCR(Join(parts, eol))
  {
    SplitOneLine(parts[0]);
    if |parts| > 1 {
      SplitJoin(parts[1..], eol);
      SplitConcat(parts[0], eol, Join(parts[1..], eol));
      assert [parts[0]] + parts[1..] == parts;
    }
  }
}
