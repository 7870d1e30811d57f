/** What the parts of a `.properties` text mean, beyond what the serialiser itself ever writes. */
module PropertySyntax {
  import opened JsText
  import opened Numerals
  import opened PropertyEntry
  import opened PropertyLines
  import opened PropertiesRoundTrip

  // ----- escapes

  /** Four units that spell a code unit, most significant digit first, each digit in either case. */
  predicate IsHexText(h: Text, c: CodeUnit) {
    && |h| == 4
    && SpellsDigit(h[0], c / 4096) && SpellsDigit(h[1], c / 256 % 16)
    && SpellsDigit(h[2], c / 16 % 16) && SpellsDigit(h[3], c % 16)
  }

  lemma DigitReads(u: CodeUnit, digit: nat)
    requires digit < 16 && SpellsDigit(u, digit)
    ensures IsHex(u) && HexDigit(u) == digit
  {
  }

  predicate IsAnyDigit(u: CodeUnit) {
    exists digit: nat :: digit < 16 && SpellsDigit(u, digit)
  }

  lemma HexIsAnyDigit(u: CodeUnit)
    ensures IsHex(u) <==> IsAnyDigit(u)
  {
    if IsHex(u) {
      assert SpellsDigit(u, HexDigit(u));
    }
  }

  lemma Digits(c: CodeUnit)
    ensures c == 4096 * (c / 4096) + 256 * (c / 256 % 16) + 16 * (c / 16 % 16) + c % 16
  {
    assert c / 16 / 16 == c / 256 && c / 256 / 16 == c / 4096;
  }

  /** `\u` and the four hex digits of a unit, in whatever case, read as that unit. */
  lemma HexEscapeReads(c: CodeUnit, h: Text, rest: Text)
    requires IsHexText(h, c)
    ensures Unescape(Ascii("\\u") + h + rest) == [c] + Unescape(rest)
  {
    var s := Ascii("\\u") + h + rest;
    DigitReads(h[0], c / 4096);
    DigitReads(h[1], c / 256 % 16);
    DigitReads(h[2], c / 16 % 16);
    DigitReads(h[3], c % 16);
    Digits(c);
    assert s[2..] == h + rest && s[6..] == rest;
    assert s[0] == BACKSLASH && s[1] == LOWER_U && HexFollows(s[2..]) && HexUnit(s[2..]) == c;
  }

  predicate StartsWithHex(s: Text) {
    |s| >= 4 && IsAnyDigit(s[0]) && IsAnyDigit(s[1]) && IsAnyDigit(s[2]) && IsAnyDigit(s[3])
  }

  lemma HexStarts(s: Text)
    ensures StartsWithHex(s) <==> HexFollows(s)
  {
    hide IsAnyDigit, IsHex;
    if |s| >= 4 {
      HexIsAnyDigit(s[0]);
      HexIsAnyDigit(s[1]);
      HexIsAnyDigit(s[2]);
      HexIsAnyDigit(s[3]);
    }
  }

  /** Without four hex digits behind it the `u` stands for itself. */
  lemma ShortHexEscapeReads(rest: Text)
    requires !StartsWithHex(rest)
    ensures Unescape(Ascii("\\u") + rest) == Ascii("u") + Unescape(rest)
  {
    assert Ascii("\\u") == [BACKSLASH, LOWER_U] && Ascii("u") == [LOWER_U];
    HexStarts(rest);
    hide *;
    LetterAlone(rest);
  }

  lemma LetterAlone(rest: Text)
    requires !HexFollows(rest)
    ensures Unescape([BACKSLASH, LOWER_U] + rest) == [LOWER_U] + Unescape(rest)
  {
    hide HexFollows, HexUnit;
    assert ([BACKSLASH, LOWER_U] + rest)[2..] == rest;
  }

  /** `\t`, `\n`, `\r` and `\f` read as those characters, any other escaped character as itself. */
  lemma LetterEscapeReads(c: CodeUnit, rest: Text)
    requires c != Ascii("u")[0]
    ensures forall i :: 0 <= i < 4 && c == Ascii("tnrf")[i] ==>
              Unescape(Ascii("\\") + [c] + rest) == [Ascii("\t\n\r\U{C}")[i]] + Unescape(rest)
    ensures c !in Ascii("tnrf") ==> Unescape(Ascii("\\") + [c] + rest) == [c] + Unescape(rest)
  {
    var letters := Ascii("tnrf");
    assert c == 116 ==> letters[0] == c;
    assert c == 110 ==> letters[1] == c;
    assert c == 114 ==> letters[2] == c;
    assert c == 102 ==> letters[3] == c;
    assert Ascii("\\") + [c] == [BACKSLASH, c];
    UnescapeEscaped([BACKSLASH, c], rest);
  }

  /** A lone backslash at the end is dropped, and text without one stands for itself. */
  lemma PlainReads(s: Text)
    requires Ascii("\\")[0] !in s
    ensures Unescape(s) == s && Unescape(s + Ascii("\\")) == s
  {
    UnescapePlain(s);
    PlainConcat(s, Ascii("\\"));
    assert s + [] == s;
  }

  lemma {:induction false} PlainConcat(s: Text, rest: Text)
    requires BACKSLASH !in s
    ensures Unescape(s + rest) == s + Unescape(rest)
  {
    hide HexFollows, HexUnit, EscapeLetter;
    if s == [] {
      assert s + rest == rest;
    } else {
      PlainConcat(s[1..], rest);
      Uncons(s, rest);
      Assoc([s[0]], s[1..], Unescape(rest));
      assert [s[0]] + s[1..] == s;
    }
  }

  // ----- where the key ends

  /** A blank, `=` or `:`. */
  predicate EndsKey(c: CodeUnit) {
    c in Ascii(" \t\U{C}=:")
  }

  lemma EndsKeyIsKeyEnd(c: CodeUnit)
    ensures EndsKey(c) <==> IsKeyEnd(c)
  {
    var ends := Ascii(" \t\U{C}=:");
    assert ends == [SPACE, TAB, FF, EQUALS, COLON];
  }

  lemma {:induction false} PairKeepsParity(c: CodeUnit, s: Text)
    ensures Continues([BACKSLASH, c] + s) == Continues(s)
  {
    var t := [BACKSLASH, c] + s;
    if s == [] {
      assert t[..1] == [BACKSLASH];
    } else {
      PairKeepsParity(c, s[..|s| - 1]);
      assert t[..|t| - 1] == [BACKSLASH, c] + s[..|s| - 1];
    }
  }

  lemma PlainKeepsParity(c: CodeUnit, s: Text)
    requires c != BACKSLASH
    ensures Continues([c] + s) == Continues(s)
  {
    ContinuesConcat([c], s);
  }

  /** The text is a key: nothing in it ends one but behind a backslash of its own. */
  predicate IsKeyText(s: Text) {
    !Continues(s) && forall i :: 0 <= i < |s| && EndsKey(s[i]) ==> Continues(s[..i])
  }

  /**
   * The key is everything up to the first unescaped blank, `=` or `:`. A lone backslash at the very end
   * belongs to it.
   */
  lemma {:induction false} KeyEndsAtFirstSeparator(key: Text, rest: Text)
    requires IsKeyText(key) && (rest != [] ==> EndsKey(rest[0]))
    ensures KeyLen(key + rest) == |key|
    decreases |key|
  {
    var s := key + rest;
    if key == [] {
      assert s == rest;
      if rest != [] { EndsKeyIsKeyEnd(rest[0]); }
    } else if key[0] == BACKSLASH {
      LoneBackslash();
      assert key == [BACKSLASH] || |key| >= 2;
      PairRest(key);
      KeyEndsAtFirstSeparator(key[2..], rest);
      assert s[2..] == key[2..] + rest;
    } else {
      PlainRest(key);
      EndsKeyIsKeyEnd(key[0]);
      KeyEndsAtFirstSeparator(key[1..], rest);
      assert s[1..] == key[1..] + rest;
    }
  }

  lemma LoneBackslash()
    ensures Continues([BACKSLASH])
  {
    var s: Text := [BACKSLASH];
    assert s[..0] == [];
  }

  lemma PairRest(key: Text)
    requires |key| >= 2 && key[0] == BACKSLASH && IsKeyText(key)
    ensures IsKeyText(key[2..])
  {
    var rest := key[2..];
    assert key == [BACKSLASH, key[1]] + rest;
    PairKeepsParity(key[1], rest);
    forall i | 0 <= i < |rest| && EndsKey(rest[i])
      ensures Continues(rest[..i])
    {
      PairKeepsParity(key[1], rest[..i]);
      assert key[..i + 2] == [BACKSLASH, key[1]] + rest[..i];
      assert EndsKey(key[i + 2]);
    }
  }

  lemma PlainRest(key: Text)
    requires key != [] && key[0] != BACKSLASH && IsKeyText(key)
    ensures IsKeyText(key[1..]) && !EndsKey(key[0])
  {
    var rest := key[1..];
    assert key == [key[0]] + rest && key[..0] == [];
    PlainKeepsParity(key[0], rest);
    forall i | 0 <= i < |rest| && EndsKey(rest[i])
      ensures Continues(rest[..i])
    {
      PlainKeepsParity(key[0], rest[..i]);
      assert key[..i + 1] == [key[0]] + rest[..i];
      assert EndsKey(key[i + 1]);
    }
  }

  // ----- what stands between key and value

  predicate IsBlankText(s: Text) {
    forall i :: 0 <= i < |s| ==> s[i] in Ascii(" \t\U{C}")
  }

  lemma BlankIsBlank(c: CodeUnit)
    ensures c in Ascii(" \t\U{C}") <==> IsBlank(c)
  {
    assert Ascii(" \t\U{C}") == [SPACE, TAB, FF];
  }

  lemma {:induction false} SkipsBlankText(pad: Text, s: Text)
    requires IsBlankText(pad) && (s == [] || s[0] !in Ascii(" \t\U{C}"))
    ensures SkipBlanks(pad + s) == s
    decreases |pad|
  {
    if pad == [] {
      assert pad + s == s;
      if s != [] { BlankIsBlank(s[0]); }
    } else {
      BlankIsBlank(pad[0]);
      SkipsBlankText(pad[1..], s);
      assert (pad + s)[1..] == pad[1..] + s;
    }
  }

  /** Blanks, then at most one `=` or `:`, then blanks again. */
  predicate IsGap(pad: Text, sign: Text, more: Text) {
    IsBlankText(pad) && IsBlankText(more) && (sign == Ascii("=") || sign == Ascii(":") || (sign == [] && more == []))
  }

  lemma GapIsSkipped(pad: Text, sign: Text, more: Text, value: Text)
    requires IsGap(pad, sign, more)
    requires value != [] ==> value[0] !in Ascii(" \t\U{C}")
    requires value != [] && sign == [] ==> value[0] !in Ascii("=:")
    ensures AfterSeparator(pad + (sign + (more + value))) == value
  {
    var tail := more + value;
    assert Ascii("=") == [EQUALS] && Ascii(":") == [COLON] && Ascii("=:") == [EQUALS, COLON];
    assert Ascii(" \t\U{C}") == [SPACE, TAB, FF];
    SkipsBlankText(more, value);
    if sign == [] {
      assert more + value == value && sign + tail == value;
      SkipsBlankText(pad, value);
      SkipsBlankText([], value);
      assert [] + value == value;
    } else {
      SkipsBlankText(pad, sign + tail);
      assert (sign + tail)[1..] == tail;
    }
  }

  /** `key`, any blanks, at most one `=` or `:`, any blanks, `value`: however it is laid out, that is what is read. */
  lemma EntryReads(key: Text, pad: Text, sign: Text, more: Text, value: Text)
    requires IsKeyText(key) && IsGap(pad, sign, more)
    requires value != [] ==> pad + sign != [] && value[0] !in Ascii(" \t\U{C}")
    requires value != [] && sign == [] ==> value[0] !in Ascii("=:")
    ensures ParseEntry(key + (pad + (sign + (more + value)))) == KeyValue(Unescape(key), Unescape(value))
  {
    var rest := pad + (sign + (more + value));
    var line := key + rest;
    GapStartsWithEnd(pad, sign, more, value);
    KeyEndsAtFirstSeparator(key, rest);
    assert line[..|key|] == key && line[|key|..] == rest;
    GapIsSkipped(pad, sign, more, value);
  }

  lemma GapStartsWithEnd(pad: Text, sign: Text, more: Text, value: Text)
    requires IsGap(pad, sign, more) && (value != [] ==> pad + sign != [])
    ensures var rest := pad + (sign + (more + value)); rest != [] ==> EndsKey(rest[0])
  {
    assert Ascii("=") == [EQUALS] && Ascii(":") == [COLON];
    assert Ascii(" \t\U{C}") == [SPACE, TAB, FF] && Ascii(" \t\U{C}=:") == [SPACE, TAB, FF, EQUALS, COLON];
    if pad == [] && sign != [] {
      assert (pad + (sign + (more + value)))[0] == sign[0];
    }
  }

  // ----- comments and continuation lines

  predicate IsCommentMark(c: CodeUnit) {
    c in Ascii("#!")
  }

  lemma MarkIsNoteMark(c: CodeUnit)
    ensures IsCommentMark(c) <==> IsNoteMark(c)
    ensures IsCommentMark(c) ==> !IsTrimmed(c)
  {
    assert Ascii("#!") == [HASH, BANG];
  }

  /** Nothing but white space, or `#` or `!` behind white space. */
  predicate IsComment(line: Text) {
    || (forall i :: 0 <= i < |line| ==> IsTrimmed(line[i]))
    || (exists i :: 0 <= i < |line| && IsCommentMark(line[i]) && forall j :: 0 <= j < i ==> IsTrimmed(line[j]))
  }

  /** Number of white space units a line starts with. */
  lemma TrimStartAt(line: Text) returns (n: nat)
    ensures n <= |line| && TrimStart(line) == line[n..] && forall i :: 0 <= i < n ==> IsTrimmed(line[i])
    ensures n < |line| ==> !IsTrimmed(line[n])
  {
    hide IsTrimmed;
    TrimDropsWhite(line);
    n := |line| - |TrimStart(line)|;
    assert n < |line| ==> TrimStart(line)[0] == line[n];
  }

  lemma CommentIsNote(line: Text)
    ensures IsComment(line) <==> IsNote(TrimStart(line))
  {
    var n := TrimStartAt(line);
    hide IsTrimmed, IsCommentMark, IsNoteMark;
    if n < |line| {
      MarkIsNoteMark(line[n]);
      assert TrimStart(line)[0] == line[n];
    }
    if i :| 0 <= i < |line| && IsCommentMark(line[i]) && forall j :: 0 <= j < i ==> IsTrimmed(line[j]) {
      MarkIsNoteMark(line[i]);
      assert i == n;
    }
  }

  /** Comments and blank lines are kept as they are; every other line starts an entry. */
  lemma CommentsAreKept(line: Text, more: seq<Text>, eol: Text)
    ensures IsComment(line) ==> ParseLines([line] + more, eol) == [TextLine(line)] + ParseLines(more, eol)
    ensures !IsComment(line) ==> ParseLines([line] + more, eol)[0].Entry?
  {
    CommentIsNote(line);
    assert ([line] + more)[1..] == more;
  }

  /**
   * A line may be folded anywhere outside an escape: ending it with a backslash and going on in the next
   * line, behind any blanks, reads the same entries.
   */
  lemma FoldingIsInvisible(a: Text, pad: Text, b: Text, more: seq<Text>, eol: Text)
    requires !IsComment(a) && !Continues(a)
    requires IsBlankText(pad) && (b == [] || b[0] !in Ascii(" \t\U{C}"))
    ensures Entries(ParseLines([a + Ascii("\\"), pad + b] + more, eol)) == Entries(ParseLines([a + b] + more, eol))
  {
    var n := TrimStartAt(a);
    CommentIsNote(a);
    HeadStays(a, [BACKSLASH], n);
    HeadStays(a, b, n);
    ContinuesSlice(a, n);
    SkipsBlankText(pad, b);
    assert Ascii("\\") == [BACKSLASH];
    hide *;
    FoldedGathers(a + [BACKSLASH], a[n..], pad + b, b, more);
    WholeGathers(a + b, a[n..] + b, more);
    HeadIsNoNote(a[n..], [BACKSLASH]);
    HeadIsNoNote(a[n..], b);
    SameEntry([a + [BACKSLASH], pad + b] + more, [a + b] + more, eol);
  }

  lemma FoldedGathers(first: Text, head: Text, second: Text, b: Text, more: seq<Text>)
    requires TrimStart(first) == head + [BACKSLASH] && !Continues(head) && SkipBlanks(second) == b
    ensures var g := GatherFirst([first, second] + more);
            g.logical == Gather(head + b, [], more).logical && g.rest == Gather(head + b, [], more).rest
  {
    hide SkipBlanks, TrimStart;
    assert ([first, second] + more)[1..] == [second] + more;
    GatherTwo(head, [first], second, b, more);
    SameLogical(head + b, [first] + [second], [], more);
  }

  lemma GatherTwo(head: Text, parts: seq<Text>, second: Text, b: Text, more: seq<Text>)
    requires !Continues(head) && SkipBlanks(second) == b
    ensures Gather(head + [BACKSLASH], parts, [second] + more) == Gather(head + b, parts + [second], more)
  {
    assert (head + [BACKSLASH])[..|head|] == head && ([second] + more)[1..] == more;
    ContinuesSnoc(head, BACKSLASH);
    hide SkipBlanks, Continues;
  }

  lemma HeadIsNoNote(head: Text, tail: Text)
    requires !IsNote(head)
    ensures !IsNote(head + tail)
  {
  }

  lemma WholeGathers(line: Text, logical: Text, more: seq<Text>)
    requires TrimStart(line) == logical
    ensures var g := GatherFirst([line] + more);
            g.logical == Gather(logical, [], more).logical && g.rest == Gather(logical, [], more).rest
  {
    assert ([line] + more)[1..] == more;
    SameLogical(logical, [line], [], more);
  }

  /** Lines that start with the same logical line and go on alike have the same entries. */
  lemma SameEntry(a: seq<Text>, b: seq<Text>, eol: Text)
    requires a != [] && b != [] && !IsNote(TrimStart(a[0])) && !IsNote(TrimStart(b[0]))
    requires GatherFirst(a).logical == GatherFirst(b).logical && GatherFirst(a).rest == GatherFirst(b).rest
    ensures Entries(ParseLines(a, eol)) == Entries(ParseLines(b, eol))
  {
    hide GatherFirst, TrimStart;
    EntriesOfParsed(a, eol);
    EntriesOfParsed(b, eol);
  }

  /** Dropping the white space in front keeps the parity of the backslashes at the end. */
  lemma {:induction false} ContinuesSlice(a: Text, n: nat)
    requires n < |a| && !IsTrimmed(a[n]) && forall i :: 0 <= i < n ==> IsTrimmed(a[i])
    ensures Continues(a[n..]) == Continues(a)
  {
    if n == 0 {
      assert a[0..] == a;
    } else {
      ContinuesSlice(a[1..], n - 1);
      assert a[1..][n - 1..] == a[n..] && a == [a[0]] + a[1..];
      PlainKeepsParity(a[0], a[1..]);
    }
  }

  lemma HeadStays(a: Text, tail: Text, n: nat)
    requires n < |a| && !IsTrimmed(a[n]) && forall i :: 0 <= i < n ==> IsTrimmed(a[i])
    ensures TrimStart(a + tail) == a[n..] + tail
  {
    var m := TrimStartAt(a + tail);
    hide IsTrimmed, TrimStart;
    assert (a + tail)[n] == a[n];
    assert m == n;
    assert (a + tail)[n..] == a[n..] + tail;
  }

  /** The parts a logical line was gathered from do not change it. */
  lemma {:induction false} SameLogical(logical: Text, p: seq<Text>, q: seq<Text>, rest: seq<Text>)
    ensures Gather(logical, p, rest).logical == Gather(logical, q, rest).logical
    ensures Gather(logical, p, rest).rest == Gather(logical, q, rest).rest
    decreases |rest|
  {
    if Continues(logical) && rest != [] {
      SameLogical(logical[..|logical| - 1] + SkipBlanks(rest[0]), p + [rest[0]], q + [rest[0]], rest[1..]);
    }
  }

  // ----- what the serialiser writes

  /** Nothing to escape: no backslash, no control character of the five, and in a key no blank or sign. */
  predicate IsPlain(s: Text, inKey: bool) {
    forall i :: 0 <= i < |s| ==> s[i] !in Ascii("\\\n\r\t\U{C}") && (inKey ==> s[i] !in Ascii(" =:"))
  }

  lemma {:induction false} PlainBodies(s: Text)
    ensures IsPlain(s, true) ==> KeyBody(s) == s
    ensures IsPlain(s, false) ==> ValueBody(s) == s
  {
    assert Ascii("\\\n\r\t\U{C}") == [BACKSLASH, LF, CR, TAB, FF] && Ascii(" =:") == [SPACE, EQUALS, COLON];
    if s != [] {
      PlainBodies(s[1..]);
      assert [s[0]] + s[1..] == s;
    }
  }

  lemma MarksAreWritten(key: Text, value: Text)
    ensures KeyMark(key) == if key != [] && IsCommentMark(key[0]) then Ascii("\\") else []
    ensures ValueMark(value) == if value != [] && value[0] == Ascii(" ")[0] then Ascii("\\") else []
  {
    assert Ascii("\\") == [BACKSLASH];
    if key != [] { MarkIsNoteMark(key[0]); }
  }

  /**
   * A plain pair is written as `key=value`, behind a backslash when the key starts with a comment mark, the
   * value behind one when it starts with a space.
   */
  lemma PlainPairIsWritten(key: Text, value: Text)
    requires IsPlain(key, true) && IsPlain(value, false)
    ensures Serialise(key, value)
         == ((if key != [] && IsCommentMark(key[0]) then Ascii("\\") else []) + key) + Ascii("=")
            + ((if value != [] && value[0] == Ascii(" ")[0] then Ascii("\\") else []) + value)
  {
    EscapersPerUnit(key, value);
    PlainBodies(key);
    PlainBodies(value);
    MarksAreWritten(key, value);
    assert Ascii("=") == [EQUALS];
    hide EscapeKey, EscapeValue, KeyMark, ValueMark, KeyBody, ValueBody, IsPlain;
  }

  /** The five characters written with a letter, and the three more a key escapes. */
  lemma SpecialsAreWritten(i: nat)
    ensures i < 5 ==> CommonUnit(Ascii("\\\n\r\t\U{C}")[i]) == Ascii("\\") + [Ascii("\\nrtf")[i]]
    ensures i < 3 ==> KeyUnit(Ascii(" =:")[i]) == Ascii("\\") + [Ascii(" =:")[i]]
  {
    assert Ascii("\\\n\r\t\U{C}") == [BACKSLASH, LF, CR, TAB, FF] && Ascii("\\nrtf") == [BACKSLASH, 110, 114, 116, 102];
    assert Ascii(" =:") == [SPACE, EQUALS, COLON] && Ascii("\\") == [BACKSLASH];
  }
}
