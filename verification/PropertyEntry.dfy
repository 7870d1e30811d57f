/** One logical `key=value` line of a .properties file: escapes, the entry parser and the serialiser. */
module PropertyEntry {
  import opened JsText

  /** Characters that end a key or pad a separator. */
  predicate IsBlank(c: CodeUnit) {
    c == SPACE || c == TAB || c == FF
  }

  predicate IsKeyEnd(c: CodeUnit) {
    c == EQUALS || c == COLON || IsBlank(c)
  }

  function SkipBlanks(s: Text): (r: Text)
    ensures |r| <= |s|
  {
    if s != [] && IsBlank(s[0]) then SkipBlanks(s[1..]) else s
  }

  // ----- unescaping

  const LOWER_U: CodeUnit := 117

  predicate IsHex(c: CodeUnit) {
    48 <= c <= 57 || 97 <= c <= 102 || 65 <= c <= 70
  }

  function HexDigit(c: CodeUnit): (d: int)
    requires IsHex(c)
    ensures 0 <= d < 16
  {
    if c <= 57 then c - 48 else if c <= 70 then c - 55 else c - 87
  }

  /** Four hex digits follow the `u` of an escape. */
  predicate HexFollows(s: Text) {
    |s| >= 4 && IsHex(s[0]) && IsHex(s[1]) && IsHex(s[2]) && IsHex(s[3])
  }

  function HexUnit(s: Text): CodeUnit
    requires HexFollows(s)
  {
    4096 * HexDigit(s[0]) + 256 * HexDigit(s[1]) + 16 * HexDigit(s[2]) + HexDigit(s[3])
  }

  /** The character an escape letter stands for, itself when it is not one of t n r f. */
  function EscapeLetter(c: CodeUnit): CodeUnit {
    if c == 116 then TAB else if c == 110 then LF else if c == 114 then CR else if c == 102 then FF else c
  }

  function Unescape(s: Text): Text {
    if s == [] then []
    else if s[0] != BACKSLASH then [s[0]] + Unescape(s[1..])
    else if |s| == 1 then []
    else if s[1] == LOWER_U && HexFollows(s[2..]) then [HexUnit(s[2..])] + Unescape(s[6..])
    else [EscapeLetter(s[1])] + Unescape(s[2..])
  }

  lemma {:induction false} UnescapePlain(s: Text)
    requires BACKSLASH !in s
    ensures Unescape(s) == s
  {
    if s != [] {
      UnescapePlain(s[1..]);
      assert [s[0]] + s[1..] == s;
    }
  }

  lemma UnescapeAt(s: Text, i: nat)
    requires i < |s|
    ensures s[i] != BACKSLASH ==> Unescape(s[i..]) == [s[i]] + Unescape(s[i + 1..])
    ensures s[i] == BACKSLASH && i + 1 == |s| ==> Unescape(s[i..]) == []
    ensures s[i] == BACKSLASH && i + 1 < |s| && s[i + 1] == LOWER_U && HexFollows(s[i + 2..])
            ==> Unescape(s[i..]) == [HexUnit(s[i + 2..])] + Unescape(s[i + 6..])
    ensures s[i] == BACKSLASH && i + 1 < |s| && !(s[i + 1] == LOWER_U && HexFollows(s[i + 2..]))
            ==> Unescape(s[i..]) == [EscapeLetter(s[i + 1])] + Unescape(s[i + 2..])
  {
    var here := s[i..];
    assert here[1..] == s[i + 1..];
    if i + 1 < |s| {
      assert here[2..] == s[i + 2..];
      if HexFollows(s[i + 2..]) { assert here[6..] == s[i + 6..]; }
    }
  }

  method UnescapeText(text: Text) returns (out: Text)
    ensures out == Unescape(text)
  {
    if BACKSLASH !in text {
      UnescapePlain(text);
      return text;
    }
    out := [];
    var i := 0;
    while i < |text|
      invariant 0 <= i <= |text|
      invariant out + Unescape(text[i..]) == Unescape(text)
    {
      UnescapeAt(text, i);
      var c := text[i];
      ghost var before := out;
      if c != BACKSLASH {
        out := out + [c];
      } else {
        i := i + 1;
        if i == |text| { break; }
        var next := text[i];
        if next == LOWER_U && HexFollows(text[i + 1..]) {
          out := out + [HexUnit(text[i + 1..])];
          i := i + 4;
        } else {
          out := out + [EscapeLetter(next)];
        }
      }
      i := i + 1;
      Assoc(before, [out[|out| - 1]], Unescape(text[i..]));
    }
  }

  // ----- splitting a logical line into key and value

  datatype KeyValue = KeyValue(key: Text, value: Text)

  /** How many characters of a logical line spell the key. */
  function KeyLen(s: Text): (n: nat)
    ensures n <= |s|
  {
    if s == [] then 0
    else if s[0] == BACKSLASH then if |s| == 1 then 1 else 2 + KeyLen(s[2..])
    else if IsKeyEnd(s[0]) then 0
    else 1 + KeyLen(s[1..])
  }

  /** The spelled value: blanks, at most one `=` or `:`, and blanks again are dropped. */
  function AfterSeparator(s: Text): Text {
    var t := SkipBlanks(s);
    SkipBlanks(if t != [] && (t[0] == EQUALS || t[0] == COLON) then t[1..] else t)
  }

  function ParseEntry(line: Text): KeyValue {
    var n := KeyLen(line);
    KeyValue(Unescape(line[..n]), Unescape(AfterSeparator(line[n..])))
  }

  method ParseEntryLine(line: Text) returns (entry: KeyValue)
    ensures entry == ParseEntry(line)
  {
    var i := 0;
    // The index steps over an escaped character, past the end when a lone backslash is last.
    while i < |line|
      invariant 0 <= i <= |line| + 1
      invariant KeyLen(line) == if i <= |line| then i + KeyLen(line[i..]) else |line|
    {
      var c := line[i];
      ghost var here := line[i..];
      if c == BACKSLASH {
        if i + 1 < |line| { assert here[2..] == line[i + 2..]; }
        i := i + 2;
      } else if IsKeyEnd(c) {
        break;
      } else {
        assert here[1..] == line[i + 1..];
        i := i + 1;
      }
    }
    var end := if i <= |line| then i else |line|;
    var key := UnescapeText(line[..end]);
    i := end;
    i := SkipBlanksFrom(line, i);
    if i < |line| && (line[i] == EQUALS || line[i] == COLON) {
      i := i + 1;
    }
    i := SkipBlanksFrom(line, i);
    var value := UnescapeText(line[i..]);
    entry := KeyValue(key, value);
  }

  method SkipBlanksFrom(line: Text, start: nat) returns (i: nat)
    requires start <= |line|
    ensures start <= i <= |line| && line[i..] == SkipBlanks(line[start..])
  {
    i := start;
    while i < |line| && IsBlank(line[i])
      invariant start <= i <= |line|
      invariant SkipBlanks(line[i..]) == SkipBlanks(line[start..])
    {
      assert line[i..][1..] == line[i + 1..];
      i := i + 1;
    }
  }

  // ----- escaping

  /** `s.replace(/c/g, by)` for a single character pattern. */
  function ReplaceAll(s: Text, c: CodeUnit, spelling: Text): Text {
    if s == [] then [] else (if s[0] == c then spelling else [s[0]]) + ReplaceAll(s[1..], c, spelling)
  }

  function EscapeCommon(s: Text): Text {
    var a := ReplaceAll(s, BACKSLASH, [BACKSLASH, BACKSLASH]);
    var b := ReplaceAll(a, LF, [BACKSLASH, 110]);
    var c := ReplaceAll(b, CR, [BACKSLASH, 114]);
    var d := ReplaceAll(c, TAB, [BACKSLASH, 116]);
    ReplaceAll(d, FF, [BACKSLASH, 102])
  }

  predicate IsKeySpecial(c: CodeUnit) {
    c == SPACE || c == EQUALS || c == COLON
  }

  /** `s.replace(/[ =:]/g, (c) => "\\" + c)` */
  function BackslashSpecials(s: Text): Text {
    if s == [] then []
    else (if IsKeySpecial(s[0]) then [BACKSLASH, s[0]] else [s[0]]) + BackslashSpecials(s[1..])
  }

  predicate IsNoteMark(c: CodeUnit) {
    c == HASH || c == BANG
  }

  function EscapeKey(key: Text): Text {
    var body := BackslashSpecials(EscapeCommon(key));
    if body != [] && IsNoteMark(body[0]) then [BACKSLASH] + body else body
  }

  function EscapeValue(value: Text): Text {
    var body := EscapeCommon(value);
    if body != [] && body[0] == SPACE then [BACKSLASH] + body else body
  }

  function Serialise(key: Text, value: Text): Text {
    EscapeKey(key) + [EQUALS] + EscapeValue(value)
  }

  /** A line whose run of trailing backslashes is odd continues on the next line. */
  predicate Continues(s: Text) {
    s != [] && s[|s| - 1] == BACKSLASH && !Continues(s[..|s| - 1])
  }

  /** The source's count of trailing backslashes decides the same thing. */
  method EndsWithContinuation(line: Text) returns (r: bool)
    ensures r == Continues(line)
  {
    var slashes := 0;
    var i := |line|;
    assert line[..i] == line;
    while i > 0 && line[i - 1] == BACKSLASH
      invariant 0 <= i <= |line| && slashes == |line| - i
      invariant Continues(line) == (Continues(line[..i]) != (slashes % 2 == 1))
    {
      assert line[..i][..i - 1] == line[..i - 1];
      slashes := slashes + 1;
      i := i - 1;
    }
    if i > 0 { assert line[..i][i - 1] == line[i - 1]; }
    r := slashes % 2 == 1;
  }

  // ----- the serialiser character by character

  /** Spelling of one character in a value, or in a key away from its specials. */
  function CommonUnit(c: CodeUnit): Text {
    if c == BACKSLASH then [BACKSLASH, BACKSLASH]
    else if c == LF then [BACKSLASH, 110]
    else if c == CR then [BACKSLASH, 114]
    else if c == TAB then [BACKSLASH, 116]
    else if c == FF then [BACKSLASH, 102]
    else [c]
  }

  function KeyUnit(c: CodeUnit): Text {
    if IsKeySpecial(c) then [BACKSLASH, c] else CommonUnit(c)
  }

  function KeyBody(key: Text): Text {
    if key == [] then [] else KeyUnit(key[0]) + KeyBody(key[1..])
  }

  function ValueBody(value: Text): Text {
    if value == [] then [] else CommonUnit(value[0]) + ValueBody(value[1..])
  }

  lemma {:induction false} ReplaceConcat(a: Text, b: Text, c: CodeUnit, spelling: Text)
    ensures ReplaceAll(a + b, c, spelling) == ReplaceAll(a, c, spelling) + ReplaceAll(b, c, spelling)
  {
    if a == [] {
      assert a + b == b;
    } else {
      ReplaceConcat(a[1..], b, c, spelling);
      Uncons(a, b);
      Assoc(if a[0] == c then spelling else [a[0]], ReplaceAll(a[1..], c, spelling), ReplaceAll(b, c, spelling));
    }
  }

  lemma {:induction false} BackslashConcat(a: Text, b: Text)
    ensures BackslashSpecials(a + b) == BackslashSpecials(a) + BackslashSpecials(b)
  {
    if a == [] {
      assert a + b == b;
    } else {
      BackslashConcat(a[1..], b);
      Uncons(a, b);
      Assoc(if IsKeySpecial(a[0]) then [BACKSLASH, a[0]] else [a[0]], BackslashSpecials(a[1..]), BackslashSpecials(b));
    }
  }

  lemma EscapeCommonConcat(a: Text, b: Text)
    ensures EscapeCommon(a + b) == EscapeCommon(a) + EscapeCommon(b)
  {
    var back, lf, cr, tab := [BACKSLASH, BACKSLASH], [BACKSLASH, 110], [BACKSLASH, 114], [BACKSLASH, 116];
    ReplaceConcat(a, b, BACKSLASH, back);
    var a1, b1 := ReplaceAll(a, BACKSLASH, back), ReplaceAll(b, BACKSLASH, back);
    ReplaceConcat(a1, b1, LF, lf);
    var a2, b2 := ReplaceAll(a1, LF, lf), ReplaceAll(b1, LF, lf);
    ReplaceConcat(a2, b2, CR, cr);
    var a3, b3 := ReplaceAll(a2, CR, cr), ReplaceAll(b2, CR, cr);
    ReplaceConcat(a3, b3, TAB, tab);
    ReplaceConcat(ReplaceAll(a3, TAB, tab), ReplaceAll(b3, TAB, tab), FF, [BACKSLASH, 102]);
  }

  lemma ReplaceOne(s: Text, c: CodeUnit, spelling: Text)
    requires |s| <= 2
    ensures |s| == 1 ==> ReplaceAll(s, c, spelling) == if s[0] == c then spelling else s
    ensures |s| == 2 && c !in s ==> ReplaceAll(s, c, spelling) == s
  {
    if |s| == 2 {
      assert s == [s[0]] + [s[1]];
      ReplaceConcat([s[0]], [s[1]], c, spelling);
    }
  }

  lemma EscapeCommonUnit(c: CodeUnit)
    ensures EscapeCommon([c]) == CommonUnit(c)
  {
    ReplaceOne([c], BACKSLASH, [BACKSLASH, BACKSLASH]);
    var a := ReplaceAll([c], BACKSLASH, [BACKSLASH, BACKSLASH]);
    ReplaceOne(a, LF, [BACKSLASH, 110]);
    var b := ReplaceAll(a, LF, [BACKSLASH, 110]);
    ReplaceOne(b, CR, [BACKSLASH, 114]);
    var d := ReplaceAll(b, CR, [BACKSLASH, 114]);
    ReplaceOne(d, TAB, [BACKSLASH, 116]);
    ReplaceOne(ReplaceAll(d, TAB, [BACKSLASH, 116]), FF, [BACKSLASH, 102]);
  }

  /** The chained replacements never touch each other's output. */
  lemma {:induction false} EscapeCommonIsPerUnit(s: Text)
    ensures EscapeCommon(s) == ValueBody(s)
  {
    if s != [] {
      assert s == [s[0]] + s[1..];
      EscapeCommonConcat([s[0]], s[1..]);
      EscapeCommonUnit(s[0]);
      EscapeCommonIsPerUnit(s[1..]);
    }
  }

  lemma BackslashUnit(c: CodeUnit)
    ensures BackslashSpecials(CommonUnit(c)) == KeyUnit(c)
  {
    var u := CommonUnit(c);
    BackslashOne(u[0]);
    if |u| == 2 {
      BackslashOne(u[1]);
      BackslashConcat([u[0]], [u[1]]);
      assert u == [u[0]] + [u[1]];
    }
  }

  lemma BackslashOne(c: CodeUnit)
    ensures BackslashSpecials([c]) == if IsKeySpecial(c) then [BACKSLASH, c] else [c]
  {
    assert [c][1..] == [];
  }

  lemma {:induction false} BackslashIsPerUnit(s: Text)
    ensures BackslashSpecials(ValueBody(s)) == KeyBody(s)
  {
    if s != [] {
      BackslashConcat(CommonUnit(s[0]), ValueBody(s[1..]));
      BackslashIsPerUnit(s[1..]);
      BackslashUnit(s[0]);
    }
  }

  lemma BodyHead(s: Text)
    ensures s == [] ==> KeyBody(s) == [] && ValueBody(s) == []
    ensures s != [] ==> KeyBody(s) != [] && (IsNoteMark(KeyBody(s)[0]) <==> IsNoteMark(s[0]))
    ensures s != [] ==> ValueBody(s) != [] && (ValueBody(s)[0] == SPACE <==> s[0] == SPACE)
  {
    if s != [] {
      Uncons(KeyUnit(s[0]), KeyBody(s[1..]));
      Uncons(CommonUnit(s[0]), ValueBody(s[1..]));
    }
  }

  /** What the value escaper adds to the unit by unit spelling. */
  function ValueMark(value: Text): Text {
    if value != [] && value[0] == SPACE then [BACKSLASH] else []
  }

  function KeyMark(key: Text): Text {
    if key != [] && IsNoteMark(key[0]) then [BACKSLASH] else []
  }

  /** Both escapers spell one unit after the other, behind at most one backslash. */
  lemma EscapersPerUnit(key: Text, value: Text)
    ensures EscapeKey(key) == KeyMark(key) + KeyBody(key)
    ensures EscapeValue(value) == ValueMark(value) + ValueBody(value)
  {
    KeyEscapedPerUnit(key);
    ValueEscapedPerUnit(value);
  }

  lemma KeyEscapedPerUnit(key: Text)
    ensures EscapeKey(key) == KeyMark(key) + KeyBody(key)
  {
    EscapeCommonIsPerUnit(key);
    BackslashIsPerUnit(key);
    BodyHead(key);
  }

  lemma ValueEscapedPerUnit(value: Text)
    ensures EscapeValue(value) == ValueMark(value) + ValueBody(value)
  {
    EscapeCommonIsPerUnit(value);
    BodyHead(value);
  }

  // ----- unescape and the entry parser undo the serialiser

  lemma UnescapeUnit(u: Text, c: CodeUnit, rest: Text)
    requires u == KeyUnit(c) || u == CommonUnit(c) || (u == [BACKSLASH, c] && (IsNoteMark(c) || c == SPACE))
    ensures Unescape(u + rest) == [c] + Unescape(rest)
  {
    if |u| == 1 {
      assert (u + rest)[1..] == rest;
    } else {
      assert u[0] == BACKSLASH && u[1] != LOWER_U && EscapeLetter(u[1]) == c;
      UnescapeEscaped(u, rest);
    }
  }

  lemma UnescapeEscaped(u: Text, rest: Text)
    requires |u| == 2 && u[0] == BACKSLASH && u[1] != LOWER_U
    ensures Unescape(u + rest) == [EscapeLetter(u[1])] + Unescape(rest)
  {
    hide EscapeLetter, HexFollows, HexUnit;
    assert (u + rest)[2..] == rest;
  }

  lemma {:induction false} UnescapeBodies(s: Text)
    ensures Unescape(KeyBody(s)) == s && Unescape(ValueBody(s)) == s
  {
    if s != [] {
      UnescapeBodies(s[1..]);
      UnescapeUnit(KeyUnit(s[0]), s[0], KeyBody(s[1..]));
      UnescapeUnit(CommonUnit(s[0]), s[0], ValueBody(s[1..]));
    }
  }

  lemma UnescapeKey(key: Text)
    ensures Unescape(EscapeKey(key)) == key
  {
    KeyEscapedPerUnit(key);
    UnescapeBodies(key);
    if KeyMark(key) != [] {
      UnescapeBodies(key[1..]);
      MarkedHead(key[0], KeyUnit(key[0]), KeyBody(key[1..]));
    } else {
      assert KeyMark(key) + KeyBody(key) == KeyBody(key);
    }
  }

  lemma UnescapeValue(value: Text)
    ensures Unescape(EscapeValue(value)) == value
  {
    ValueEscapedPerUnit(value);
    UnescapeBodies(value);
    if ValueMark(value) != [] {
      UnescapeBodies(value[1..]);
      MarkedHead(value[0], CommonUnit(value[0]), ValueBody(value[1..]));
    } else {
      assert ValueMark(value) + ValueBody(value) == ValueBody(value);
    }
  }

  lemma MarkedHead(c: CodeUnit, u: Text, rest: Text)
    requires IsNoteMark(c) || c == SPACE
    requires u == [c]
    ensures [BACKSLASH] + (u + rest) == [BACKSLASH, c] + rest
    ensures Unescape([BACKSLASH] + (u + rest)) == [c] + Unescape(rest)
  {
    assert [BACKSLASH] + (u + rest) == [BACKSLASH, c] + rest;
    UnescapeUnit([BACKSLASH, c], c, rest);
  }

  /** `unescape` inverts both escapers. */
  lemma UnescapeInverts(key: Text, value: Text)
    ensures Unescape(EscapeKey(key)) == key
    ensures Unescape(EscapeValue(value)) == value
  {
    UnescapeKey(key);
    UnescapeValue(value);
  }

  lemma KeyLenUnit(u: Text, rest: Text)
    requires (|u| == 2 && u[0] == BACKSLASH) || (|u| == 1 && u[0] != BACKSLASH && !IsKeyEnd(u[0]))
    ensures KeyLen(u + rest) == |u| + KeyLen(rest)
  {
    assert (u + rest)[|u|..] == rest;
  }

  lemma {:induction false} KeyLenBody(key: Text, rest: Text)
    ensures KeyLen(KeyBody(key) + [EQUALS] + rest) == |KeyBody(key)|
  {
    if key == [] {
      assert KeyBody(key) + [EQUALS] + rest == [EQUALS] + rest;
    } else {
      KeyLenBody(key[1..], rest);
      KeyLenUnit(KeyUnit(key[0]), KeyBody(key[1..]) + [EQUALS] + rest);
      Reassociate(KeyUnit(key[0]), KeyBody(key[1..]), [EQUALS], rest);
    }
  }

  lemma KeyLenEscaped(key: Text, rest: Text)
    ensures KeyLen(EscapeKey(key) + [EQUALS] + rest) == |EscapeKey(key)|
  {
    KeyEscapedPerUnit(key);
    if KeyMark(key) == [] {
      KeyLenBody(key, rest);
      assert KeyMark(key) + KeyBody(key) == KeyBody(key);
    } else {
      var tail := KeyBody(key[1..]);
      KeyLenBody(key[1..], rest);
      KeyLenUnit([BACKSLASH, key[0]], tail + [EQUALS] + rest);
      Reassociate([BACKSLASH, key[0]], tail, [EQUALS], rest);
      assert [BACKSLASH] + KeyBody(key) == [BACKSLASH, key[0]] + tail;
    }
  }

  lemma ValueKeepsHead(value: Text)
    ensures EscapeValue(value) == [] || !IsBlank(EscapeValue(value)[0])
  {
    ValueEscapedPerUnit(value);
    if value != [] { Uncons(CommonUnit(value[0]), ValueBody(value[1..])); }
  }

  lemma AfterEquals(tail: Text)
    requires tail == [] || !IsBlank(tail[0])
    ensures AfterSeparator([EQUALS] + tail) == tail
  {
    assert ([EQUALS] + tail)[1..] == tail;
  }

  lemma SliceAround(a: Text, b: Text, c: Text)
    ensures (a + b + c)[..|a|] == a && (a + b + c)[|a|..] == b + c
  {
  }

  lemma ParseSpelled(spelled: Text, key: Text, value: Text)
    requires Unescape(spelled) == key
    requires KeyLen(spelled + [EQUALS] + EscapeValue(value)) == |spelled|
    ensures ParseEntry(spelled + [EQUALS] + EscapeValue(value)) == KeyValue(key, value)
  {
    SliceAround(spelled, [EQUALS], EscapeValue(value));
    ValueKeepsHead(value);
    AfterEquals(EscapeValue(value));
    UnescapeInverts([], value);
  }

  /** Reading back a serialised line gives the entry, for every key and value. */
  lemma ParseUndoesSerialise(key: Text, value: Text)
    ensures ParseEntry(Serialise(key, value)) == KeyValue(key, value)
  {
    UnescapeInverts(key, value);
    KeyLenEscaped(key, EscapeValue(value));
    ParseSpelled(EscapeKey(key), key, value);
  }

  /** A serialised line is one physical line that never asks for a continuation. */
  lemma SerialisedIsOneLine(key: Text, value: Text)
    ensures OneLine(Serialise(key, value)) && !Continues(Serialise(key, value))
  {
    EscapedKeyOneLine(key);
    EscapedValueBalanced(value);
    TailBalanced(EscapeKey(key), value);
  }

  lemma EscapedKeyOneLine(key: Text)
    ensures OneLine(EscapeKey(key))
  {
    KeyEscapedPerUnit(key);
    BodiesBalanced(key);
  }

  lemma EscapedValueBalanced(value: Text)
    ensures OneLine(EscapeValue(value)) && !Continues(EscapeValue(value))
  {
    ValueEscapedPerUnit(value);
    BodiesBalanced(value);
    if ValueMark(value) == [] {
      assert ValueMark(value) + ValueBody(value) == ValueBody(value);
    } else {
      BodiesBalanced(value[1..]);
      assert [BACKSLASH] + ValueBody(value) == [BACKSLASH] + [SPACE] + ValueBody(value[1..]);
      ContinuesSnoc([BACKSLASH], SPACE);
      ContinuesConcat([BACKSLASH] + [SPACE], ValueBody(value[1..]));
    }
  }

  lemma ContinuesSnoc(s: Text, c: CodeUnit)
    ensures Continues(s + [c]) == (c == BACKSLASH && !Continues(s))
  {
    assert (s + [c])[..|s|] == s;
  }

  lemma {:induction false} ContinuesConcat(a: Text, b: Text)
    requires !Continues(a)
    ensures Continues(a + b) == Continues(b)
  {
    if b == [] {
      assert a + b == a;
    } else {
      ContinuesConcat(a, b[..|b| - 1]);
      assert (a + b)[..|a + b| - 1] == a + b[..|b| - 1];
    }
  }

  lemma {:induction false} BodiesBalanced(s: Text)
    ensures OneLine(KeyBody(s)) && OneLine(ValueBody(s))
    ensures !Continues(ValueBody(s))
  {
    if s != [] {
      BodiesBalanced(s[1..]);
      UnitBalanced(s[0]);
      hide Continues, CommonUnit, KeyUnit;
      ContinuesConcat(CommonUnit(s[0]), ValueBody(s[1..]));
      OneLineConcat(CommonUnit(s[0]), ValueBody(s[1..]));
      OneLineConcat(KeyUnit(s[0]), KeyBody(s[1..]));
    }
  }

  lemma UnitBalanced(c: CodeUnit)
    ensures OneLine(CommonUnit(c)) && OneLine(KeyUnit(c)) && !Continues(CommonUnit(c))
  {
    var u := CommonUnit(c);
    if |u| == 2 {
      assert u == [] + [BACKSLASH] + [u[1]];
      ContinuesSnoc([], BACKSLASH);
      ContinuesSnoc([] + [BACKSLASH], u[1]);
    } else {
      assert u == [] + [c];
      ContinuesSnoc([], c);
    }
  }

  lemma OneLineConcat(a: Text, b: Text)
    requires OneLine(a) && OneLine(b)
    ensures OneLine(a + b)
  {
  }

  // ----- what trimming the line does to a serialised key

  /** Characters `trimStart` drops although the key escaper leaves them as they are. */
  predicate IsLostAtHead(c: CodeUnit) {
    IsTrimmed(c) && c != SPACE && c != TAB && c != LF && c != FF && c != CR
  }

  predicate LosesHead(key: Text) {
    key != [] && IsLostAtHead(key[0])
  }

  /** How many leading characters of the key trimming drops. */
  function LostAtHead(key: Text): (j: nat)
    ensures j <= |key|
    ensures j > 0 <==> LosesHead(key)
  {
    if LosesHead(key) then 1 + LostAtHead(key[1..]) else 0
  }

  lemma {:induction false} TrimBody(key: Text, rest: Text)
    ensures TrimStart(KeyBody(key) + [EQUALS] + rest) == KeyBody(key[LostAtHead(key)..]) + [EQUALS] + rest
  {
    if LosesHead(key) {
      TrimBody(key[1..], rest);
      TrimLost(key, rest);
    } else {
      hide KeyBody;
      NothingLost(key);
      HeadOfBody(key, rest);
    }
  }

  lemma NothingLost(key: Text)
    requires !LosesHead(key)
    ensures key[LostAtHead(key)..] == key
  {
  }

  lemma LostOneMore(key: Text)
    requires LosesHead(key)
    ensures KeyBody(key) == [key[0]] + KeyBody(key[1..])
    ensures key[LostAtHead(key)..] == key[1..][LostAtHead(key[1..])..]
  {
  }

  lemma TrimLost(key: Text, rest: Text)
    requires LosesHead(key)
    requires TrimStart(KeyBody(key[1..]) + [EQUALS] + rest)
          == KeyBody(key[1..][LostAtHead(key[1..])..]) + [EQUALS] + rest
    ensures TrimStart(KeyBody(key) + [EQUALS] + rest) == KeyBody(key[LostAtHead(key)..]) + [EQUALS] + rest
  {
    LostOneMore(key);
    TrimUnit(key[0], KeyBody(key[1..]), rest);
  }

  lemma TrimUnit(c: CodeUnit, body: Text, rest: Text)
    requires IsTrimmed(c)
    ensures TrimStart([c] + body + [EQUALS] + rest) == TrimStart(body + [EQUALS] + rest)
  {
    Reassociate([c], body, [EQUALS], rest);
    assert ([c] + (body + [EQUALS] + rest))[1..] == body + [EQUALS] + rest;
  }

  lemma HeadOfBody(key: Text, rest: Text)
    ensures IsTrimmed((KeyBody(key) + [EQUALS] + rest)[0]) <==> LosesHead(key)
  {
    var line := KeyBody(key) + [EQUALS] + rest;
    if key == [] { assert line[0] == EQUALS; } else { assert line[0] == KeyUnit(key[0])[0]; }
  }

  /** A serialised line keeps its head, and is no comment, exactly when its key keeps its head. */
  lemma TrimSerialised(key: Text, value: Text)
    requires !LosesHead(key)
    ensures TrimStart(Serialise(key, value)) == Serialise(key, value)
    ensures !IsNoteMark(Serialise(key, value)[0])
  {
    EscapedHead(key);
    Uncons(EscapeKey(key) + [EQUALS], EscapeValue(value));
  }

  lemma EscapedHead(key: Text)
    requires !LosesHead(key)
    ensures var head := (EscapeKey(key) + [EQUALS])[0]; !IsTrimmed(head) && !IsNoteMark(head)
  {
    KeyEscapedPerUnit(key);
    if key != [] {
      Uncons(KeyUnit(key[0]), KeyBody(key[1..]));
      assert EscapeKey(key) != [];
    }
  }

  /** Otherwise the line is read as a comment, or as an entry of a shorter key. */
  lemma TrimLosesKey(key: Text, value: Text)
    requires LosesHead(key)
    ensures var head := TrimStart(Serialise(key, value));
            head != [] && !Continues(head) && |ParseEntry(head).key| < |key|
  {
    var tail := key[LostAtHead(key)..];
    LostHeadLeavesTail(key, value);
    KeyLenBody(tail, EscapeValue(value));
    UnescapeBodies(tail);
    ParseSpelled(KeyBody(tail), tail, value);
    TailBalanced(KeyBody(tail), value);
  }

  lemma LostHeadLeavesTail(key: Text, value: Text)
    requires LosesHead(key)
    ensures TrimStart(Serialise(key, value)) == KeyBody(key[LostAtHead(key)..]) + [EQUALS] + EscapeValue(value)
  {
    KeyEscapedPerUnit(key);
    assert KeyMark(key) + KeyBody(key) == KeyBody(key);
    TrimBody(key, EscapeValue(value));
  }

  lemma TailBalanced(spelled: Text, value: Text)
    ensures !Continues(spelled + [EQUALS] + EscapeValue(value))
  {
    ContinuesSnoc(spelled, EQUALS);
    EscapedValueBalanced(value);
    ContinuesConcat(spelled + [EQUALS], EscapeValue(value));
  }
}
