/** The subnet test: addresses become strings of binary digits and their prefixes are compared. */
module Subnets {
  import opened JsText
  import opened Numerals

  const PERCENT: CodeUnit := 37
  const PLUS: CodeUnit := 43
  const MINUS: CodeUnit := 45
  const DOT: CodeUnit := 46
  const SLASH: CodeUnit := 47
  const ZERO: CodeUnit := 48
  const NAN: Text := [78, 97, 78]
  const DOUBLE: Text := [COLON, COLON]
  const FFFF: Text := [102, 102, 102, 102]
  const MAPPED: Text := DOUBLE + FFFF + [COLON]

  /** What the runtime's `isIPv4` and `isIPv6` say of a text. */
  datatype Family = IPv4 | IPv6 | NoIp

  // ----- string functions of the runtime

  /** `s.split(separator)` */
  function Split(s: Text, separator: Text): (r: seq<Text>)
    requires separator != []
    ensures |r| >= 1
  {
    if s == [] then [[]]
    else if separator <= s then [[]] + Split(s[|separator|..], separator)
    else Push(s[0], Split(s[1..], separator))
  }

  /** `s.includes(part)` */
  predicate Includes(s: Text, part: Text) {
    exists i :: 0 <= i <= |s| && part <= s[i..]
  }

  function Zeros(n: nat): (r: Text)
    ensures |r| == n && forall i :: 0 <= i < n ==> r[i] == ZERO
  {
    seq(n, _ => ZERO)
  }

  /** `s.padStart(width, "0")` */
  function PadStart(s: Text, width: nat): Text {
    if |s| < width then Zeros(width - |s|) + s else s
  }

  /** The leading digits of a text. */
  function DigitRun(s: Text, radix: nat): (r: Text)
    ensures r <= s && AllDigits(r, radix)
  {
    if s != [] && DigitOf(s[0]) < radix then
      var rest := DigitRun(s[1..], radix);
      assert [s[0]] + s[1..] == s;
      [s[0]] + rest
    else []
  }

  predicate HasHexMark(s: Text) {
    |s| >= 2 && s[0] == ZERO && (s[1] == 120 || s[1] == 88)
  }

  /** `parseInt(s, radix)`, None for NaN. */
  function ParseInt(s: Text, radix: nat): Option<int> {
    var t := TrimStart(s);
    var signed := t != [] && (t[0] == PLUS || t[0] == MINUS);
    var u := if signed then t[1..] else t;
    var digits := DigitRun(if radix == 16 && HasHexMark(u) then u[2..] else u, radix);
    var value: int := Value(digits, radix);
    if digits == [] then None else Some(if signed && t[0] == MINUS then -value else value)
  }

  /** `n.toString(2)` */
  function ToBinary(n: Option<int>): Text {
    match n
    case None => NAN
    case Some(v) => if v < 0 then [MINUS] + Numeral(-v, 2) else Numeral(v, 2)
  }

  /** `s.substring(0, end)` */
  function Substring(s: Text, end: int): Text {
    s[..Clamp(end, |s|)]
  }

  /** What `substring` makes of a prefix length outside 0 .. width. */
  function Clamp(end: int, width: nat): (r: nat)
    ensures r <= width
  {
    if end < 0 then 0 else if end > width then width else end
  }

  // ----- the test

  /** A part between separators, none when there is no text: `part ? part.split(":") : []`. */
  function Groups(part: Text): seq<Text> {
    if part == [] then [] else Split(part, [COLON])
  }

  function Fill(n: nat): (r: seq<Text>)
    ensures |r| == n && forall i :: 0 <= i < n ==> r[i] == [ZERO]
  {
    seq(n, _ => [ZERO])
  }

  function PadAll(groups: seq<Text>): (r: seq<Text>)
    ensures |r| == |groups| && forall i :: 0 <= i < |r| ==> r[i] == PadStart(groups[i], 4)
  {
    seq(|groups|, i requires 0 <= i < |groups| => PadStart(groups[i], 4))
  }

  /** All eight groups, each padded to four digits. */
  function ExpandIPv6(ip: Text): Option<Text> {
    if Includes(ip, MAPPED) then None
    else
      var parts := Split(ip, DOUBLE);
      if |parts| > 2 then None
      else
        var left := Groups(parts[0]);
        var right := if |parts| > 1 then Groups(parts[1]) else [];
        var missing := 8 - |left| - |right|;
        if missing < 0 then None
        else Some(Join(PadAll(left + Fill(missing) + right), [COLON]))
  }

  /** The parts read in a radix, written in binary, padded to a width and joined. */
  function Bits(parts: seq<Text>, radix: nat, width: nat): Text {
    if parts == [] then []
    else PadStart(ToBinary(ParseInt(parts[0], radix)), width) + Bits(parts[1..], radix, width)
  }

  function IpToBinary(family: Family, ip: Text): Option<Text> {
    match family
    case IPv4 => Some(Bits(Split(ip, [DOT]), 10, 8))
    case IPv6 =>
      (match ExpandIPv6(ip)
       case None => None
       case Some(expanded) => Some(Bits(Split(expanded, [COLON]), 16, 16)))
    case NoIp => None
  }

  function IsIpInSubnet(node: Text -> Family, ip: Text, subnet: Text): bool {
    var parts := Split(subnet, [SLASH]);
    var prefix := if |parts| > 1 then ParseInt(parts[1], 10) else None;
    if parts[0] == [] || prefix.None? then false
    else
      var ipBits := IpToBinary(node(ip), ip);
      var subnetBits := IpToBinary(node(parts[0]), parts[0]);
      if ipBits.None? || subnetBits.None? then false
      else if |ipBits.value| != |subnetBits.value| then false
      else Substring(ipBits.value, prefix.value) == Substring(subnetBits.value, prefix.value)
  }

  // ----- splitting

  lemma {:induction false} SplitNone(s: Text, separator: Text)
    requires separator != []
    requires forall i :: 0 <= i < |s| ==> !(separator <= s[i..])
    ensures Split(s, separator) == [s]
  {
    if s != [] {
      assert s[0..] == s;
      forall i | 0 <= i < |s[1..]|
        ensures !(separator <= s[1..][i..])
      {
        assert s[1..][i..] == s[i + 1..];
      }
      SplitNone(s[1..], separator);
      assert [s[0]] + s[1..] == s;
    }
  }

  lemma {:induction false} SplitFirst(a: Text, separator: Text, b: Text)
    requires separator != []
    requires forall i :: 0 <= i < |a| ==> !(separator <= (a + separator + b)[i..])
    ensures Split(a + separator + b, separator) == [a] + Split(b, separator)
  {
    var s := a + separator + b;
    if a == [] {
      assert s[|separator|..] == b;
    } else {
      assert s[0..] == s;
      Shift(a, separator, b);
      forall i | 0 <= i < |a[1..]|
        ensures !(separator <= (a[1..] + separator + b)[i..])
      {
        assert s[1..][i..] == s[i + 1..];
      }
      SplitFirst(a[1..], separator, b);
      PushFirst(a, Split(b, separator));
    }
  }

  lemma Shift(a: Text, b: Text, c: Text)
    requires a != []
    ensures (a + b + c)[1..] == a[1..] + b + c
  {
  }

  lemma PushFirst(a: Text, rest: seq<Text>)
    requires a != []
    ensures Push(a[0], [a[1..]] + rest) == [a] + rest
  {
    assert [a[0]] + a[1..] == a;
  }

  lemma SplitOne(s: Text, c: CodeUnit)
    requires c !in s
    ensures Split(s, [c]) == [s]
  {
    forall i | 0 <= i < |s|
      ensures !([c] <= s[i..])
    {
      assert s[i..][0] == s[i];
    }
    SplitNone(s, [c]);
  }

  lemma SplitAt(a: Text, c: CodeUnit, b: Text)
    requires c !in a
    ensures Split(a + [c] + b, [c]) == [a] + Split(b, [c])
  {
    var s := a + [c] + b;
    forall i | 0 <= i < |a|
      ensures !([c] <= s[i..])
    {
      assert s[i..][0] == a[i];
    }
    SplitFirst(a, [c], b);
  }

  /** `parts.join(c).split(c)` gives the parts back. */
  lemma {:induction false} SplitUndoesJoin(parts: seq<Text>, c: CodeUnit)
    requires parts != [] && forall i :: 0 <= i < |parts| ==> c !in parts[i]
    ensures Split(Join(parts, [c]), [c]) == parts
  {
    if |parts| == 1 {
      SplitOne(parts[0], c);
    } else {
      SplitAt(parts[0], c, Join(parts[1..], [c]));
      SplitUndoesJoin(parts[1..], c);
      assert [parts[0]] + parts[1..] == parts;
    }
  }

  // ----- reading digits

  lemma {:induction false} DigitRunAll(s: Text, radix: nat)
    requires AllDigits(s, radix)
    ensures DigitRun(s, radix) == s
  {
    if s != [] {
      DigitRunAll(s[1..], radix);
      assert [s[0]] + s[1..] == s;
    }
  }

  lemma ParseIntReads(s: Text, radix: nat)
    requires s != [] && AllDigits(s, radix) && radix <= 16
    ensures ParseInt(s, radix) == Some(Value(s, radix))
  {
    TrimNothing(s);
    NoHexMark(s, radix);
    DigitRunAll(s, radix);
    hide Value, TrimStart, DigitRun;
  }

  lemma ParseIntNegates(s: Text, radix: nat)
    requires s != [] && AllDigits(s, radix) && radix <= 10
    ensures ParseInt([MINUS] + s, radix) == Some(-(Value(s, radix) as int))
  {
    TrimNothing([MINUS] + s);
    NoHexMark(s, radix);
    DigitRunAll(s, radix);
    hide Value, TrimStart, DigitRun;
    assert ([MINUS] + s)[1..] == s;
  }

  predicate IsSign(sign: Text) {
    sign == [] || sign == Ascii("+") || sign == Ascii("-")
  }

  lemma SignsAre(sign: Text)
    ensures IsSign(sign) <==> sign == [] || sign == [PLUS] || sign == [MINUS]
    ensures sign == Ascii("-") <==> sign == [MINUS]
  {
    assert Ascii("+") == [PLUS] && Ascii("-") == [MINUS];
  }

  predicate IsHexMark(mark: Text) {
    mark == Ascii("0x") || mark == Ascii("0X")
  }

  lemma MarksAre(mark: Text)
    ensures IsHexMark(mark) <==> mark == [ZERO, 120] || mark == [ZERO, 88]
  {
    assert Ascii("0x") == [ZERO, 120] && Ascii("0X") == [ZERO, 88];
  }

  /** White space, a sign, in radix 16 a mark, digits, and whatever follows them. */
  ghost predicate IsInteger(white: Text, sign: Text, mark: Text, digits: Text, rest: Text, radix: nat) {
    && (forall c :: c in white ==> IsTrimmed(c)) && IsSign(sign)
    && (mark == [] || (radix == 16 && IsHexMark(mark)))
    && digits != [] && AllDigits(digits, radix) && (rest != [] ==> DigitOf(rest[0]) >= radix)
    && (mark == [] && radix == 16 ==> !HasHexMark(digits + rest))
  }

  /** `parseInt` skips the white space, minds sign and mark, and stops at the first unit that is no digit. */
  lemma IntegerIsRead(white: Text, sign: Text, mark: Text, digits: Text, rest: Text, radix: nat)
    requires radix <= 16 && IsInteger(white, sign, mark, digits, rest, radix)
    ensures var value: int := Value(digits, radix);
            ParseInt(white + (sign + (mark + (digits + rest))), radix)
            == Some(if sign == Ascii("-") then -value else value)
  {
    var u := mark + (digits + rest);
    SignsAre(sign);
    MarkedDigits(mark, digits, rest, radix);
    assert !IsTrimmed((sign + u)[0]) && u[0] != PLUS && u[0] != MINUS;
    WhiteIsSkipped(white, sign + u);
    hide *;
    SignedIsRead(white + (sign + u), sign, u, digits, radix);
  }

  lemma MarkedDigits(mark: Text, digits: Text, rest: Text, radix: nat)
    requires radix <= 16 && IsInteger([], [], mark, digits, rest, radix)
    ensures var u := mark + (digits + rest);
            && DigitRun(if radix == 16 && HasHexMark(u) then u[2..] else u, radix) == digits
            && u != [] && DigitOf(u[0]) < 16
  {
    MarksAre(mark);
    DigitRunStops(digits, rest, radix);
    var u := mark + (digits + rest);
    hide DigitRun, AllDigits;
    assert mark == [] ==> u == digits + rest && u[0] == digits[0];
    assert mark != [] ==> u[0] == ZERO && u[2..] == digits + rest;
  }

  lemma SignedIsRead(s: Text, sign: Text, u: Text, digits: Text, radix: nat)
    requires TrimStart(s) == sign + u && (sign == [] || sign == [PLUS] || sign == [MINUS])
    requires u != [] && (sign == [] ==> u[0] != PLUS && u[0] != MINUS)
    requires DigitRun(if radix == 16 && HasHexMark(u) then u[2..] else u, radix) == digits
    ensures var value: int := Value(digits, radix);
            ParseInt(s, radix) == if digits == [] then None else Some(if sign == [MINUS] then -value else value)
  {
    hide TrimStart, DigitRun, HasHexMark, Value;
    assert sign != [] ==> (sign + u)[1..] == u && (sign + u)[0] == sign[0];
    assert sign == [] ==> sign + u == u;
  }

  lemma {:induction false} WhiteIsSkipped(white: Text, s: Text)
    requires (forall c :: c in white ==> IsTrimmed(c)) && s != [] && !IsTrimmed(s[0])
    ensures TrimStart(white + s) == s
  {
    hide IsTrimmed;
    if white == [] {
      assert white + s == s;
    } else {
      assert white[0] in white;
      WhiteIsSkipped(white[1..], s);
      assert (white + s)[1..] == white[1..] + s;
    }
  }

  lemma {:induction false} DigitRunStops(digits: Text, rest: Text, radix: nat)
    requires AllDigits(digits, radix) && (rest != [] ==> DigitOf(rest[0]) >= radix)
    ensures DigitRun(digits + rest, radix) == digits
  {
    hide DigitOf;
    if digits == [] {
      assert digits + rest == rest;
    } else {
      DigitRunStops(digits[1..], rest, radix);
      assert (digits + rest)[1..] == digits[1..] + rest && [digits[0]] + digits[1..] == digits;
    }
  }

  /** Without a digit after white space and sign there is no integer. */
  lemma NoDigitNoInteger(white: Text, sign: Text, rest: Text, radix: nat)
    requires (forall c :: c in white ==> IsTrimmed(c)) && IsSign(sign) && radix <= 16
    requires rest != [] && DigitOf(rest[0]) >= radix && !HasHexMark(rest)
    requires sign == [] ==> !IsTrimmed(rest[0]) && !IsSign([rest[0]])
    ensures ParseInt(white + (sign + rest), radix) == None
  {
    SignsAre(sign);
    SignsAre([rest[0]]);
    WhiteIsSkipped(white, sign + rest);
    assert DigitRun(rest, radix) == [];
    assert sign == [] ==> rest[0] != PLUS && rest[0] != MINUS by {
      if sign == [] { assert [rest[0]] != [PLUS] && [rest[0]] != [MINUS]; }
    }
    hide *;
    SignedIsRead(white + (sign + rest), sign, rest, [], radix);
  }

  lemma TrimNothing(s: Text)
    requires s != [] && !IsTrimmed(s[0])
    ensures TrimStart(s) == s
  {
  }

  lemma NoHexMark(s: Text, radix: nat)
    requires AllDigits(s, radix) && radix <= 16
    ensures !HasHexMark(s)
  {
  }

  lemma {:induction false} LeadingZeros(n: nat, s: Text, base: nat)
    ensures Value(Zeros(n) + s, base) == Value(s, base)
  {
    var zeros := Zeros(n);
    if s == [] {
      assert zeros + s == zeros;
      OnlyZeros(n, base);
    } else {
      var k := |s| - 1;
      assert (zeros + s)[..|zeros + s| - 1] == zeros + s[..k];
      LeadingZeros(n, s[..k], base);
    }
  }

  lemma {:induction false} OnlyZeros(n: nat, base: nat)
    ensures Value(Zeros(n), base) == 0
  {
    if n > 0 {
      var zeros := Zeros(n);
      assert zeros[..n - 1] == Zeros(n - 1);
      OnlyZeros(n - 1, base);
    }
  }

  lemma PadStartKeepsValue(s: Text, width: nat, base: nat)
    ensures Value(PadStart(s, width), base) == Value(s, base)
  {
    if |s| < width { LeadingZeros(width - |s|, s, base); }
  }

  // ----- bits are the number

  /** The big-endian number of groups of `width` bits. */
  function Number(values: seq<nat>, width: nat): nat {
    if values == [] then 0
    else Pow2(width * (|values| - 1)) * values[0] + Number(values[1..], width)
  }

  ghost predicate Reads(part: Text, radix: nat, width: nat, value: nat) {
    ParseInt(part, radix) == Some(value) && value < Pow2(width)
  }

  /** One part of an address in binary. */
  function Block(value: nat, width: nat): Text {
    PadStart(Numeral(value, 2), width)
  }

  lemma BlockValue(value: nat, width: nat)
    requires value < Pow2(width) && width >= 1
    ensures |Block(value, width)| == width && LowerDigits(Block(value, width), 2)
    ensures Value(Block(value, width), 2) == value
  {
    BinaryLength(value, width);
    NumeralReads(value, 2);
    PadStartKeepsValue(Numeral(value, 2), width, 2);
  }

  /** The joined binary digits of the parts spell the number of their values. */
  lemma {:induction false} BitsSpellNumber(parts: seq<Text>, values: seq<nat>, radix: nat, width: nat)
    requires |parts| == |values| && width >= 1
    requires forall i :: 0 <= i < |parts| ==> Reads(parts[i], radix, width, values[i])
    ensures var bits := Bits(parts, radix, width);
            |bits| == width * |parts| && LowerDigits(bits, 2) && Value(bits, 2) == Number(values, width)
  {
    if parts != [] {
      BitsSpellNumber(parts[1..], values[1..], radix, width);
      BlockValue(values[0], width);
      assert Reads(parts[0], radix, width, values[0]);
      BinaryConcat(Block(values[0], width), Bits(parts[1..], radix, width));
      OneMore(width, |parts|);
    }
  }

  lemma OneMore(width: nat, n: nat)
    requires n > 0
    ensures width + width * (n - 1) == width * n
  {
  }

  lemma {:induction false} BitsConcat(a: seq<Text>, b: seq<Text>, radix: nat, width: nat)
    ensures Bits(a + b, radix, width) == Bits(a, radix, width) + Bits(b, radix, width)
  {
    if a == [] {
      assert a + b == b;
    } else {
      assert (a + b)[1..] == a[1..] + b;
      BitsConcat(a[1..], b, radix, width);
    }
  }

  lemma FirstBlock(parts: seq<Text>, value: nat, radix: nat, width: nat)
    requires parts != [] && Reads(parts[0], radix, width, value)
    ensures Bits(parts, radix, width) == Block(value, width) + Bits(parts[1..], radix, width)
  {
  }

  lemma BlocksDiffer(v: nat, w: nat, width: nat)
    requires v < Pow2(width) && w < Pow2(width) && width >= 1
    ensures |Block(v, width)| == |Block(w, width)|
    ensures Block(v, width) == Block(w, width) <==> v == w
  {
    BlockValue(v, width);
    BlockValue(w, width);
  }

  /** Equal bits: equal values. */
  lemma {:induction false} BitsEqual(a: seq<Text>, b: seq<Text>, v: seq<nat>, w: seq<nat>, radix: nat, width: nat)
    requires |a| == |v| && |b| == |w| && |a| == |b| && width >= 1
    requires forall i :: 0 <= i < |a| ==> Reads(a[i], radix, width, v[i]) && Reads(b[i], radix, width, w[i])
    ensures Bits(a, radix, width) == Bits(b, radix, width) <==> v == w
  {
    if a != [] {
      BitsEqual(a[1..], b[1..], v[1..], w[1..], radix, width);
      FirstBlock(a, v[0], radix, width);
      FirstBlock(b, w[0], radix, width);
      BlocksDiffer(v[0], w[0], width);
      HeadTail(Block(v[0], width), Bits(a[1..], radix, width), Block(w[0], width), Bits(b[1..], radix, width));
      FirstAndRest(v, w);
    }
  }

  lemma FirstAndRest(v: seq<nat>, w: seq<nat>)
    requires |v| == |w| > 0
    ensures v == w <==> v[0] == w[0] && v[1..] == w[1..]
  {
    assert v == [v[0]] + v[1..] && w == [w[0]] + w[1..];
  }

  lemma HeadTail(a: Text, x: Text, b: Text, y: Text)
    requires |a| == |b|
    ensures a + x == b + y <==> a == b && x == y
  {
    if a + x == b + y {
      assert a == (a + x)[..|a|] && x == (a + x)[|a|..];
      assert b == (b + y)[..|a|] && y == (b + y)[|a|..];
    }
  }

  lemma BitsLength(parts: seq<Text>, values: seq<nat>, radix: nat, width: nat)
    requires |parts| == |values| && width >= 1
    requires forall i :: 0 <= i < |parts| ==> Reads(parts[i], radix, width, values[i])
    ensures |Bits(parts, radix, width)| == width * |parts|
  {
    BitsSpellNumber(parts, values, radix, width);
  }

  /** The bits of the first parts come first. */
  lemma BitsPrefix(parts: seq<Text>, radix: nat, width: nat, k: nat)
    requires k <= |parts|
    ensures Bits(parts[..k], radix, width) <= Bits(parts, radix, width)
  {
    assert parts == parts[..k] + parts[k..];
    BitsConcat(parts[..k], parts[k..], radix, width);
  }
}
