/** Written addresses, the numbers they stand for, and what the subnet test makes of them. */
module AddressText {
  import opened JsText
  import opened Numerals
  import opened Subnets

  /**
   * An address as its parts: four octets, eight groups, or the groups left and right of a "::"
   * (sections 2.2 and 2.3 of RFC 4291).
   */
  datatype Address =
    | Dotted(octets: seq<nat>)
    | Full(groups: seq<Text>)
    | Short(left: seq<Text>, right: seq<Text>)

  /** One to four hexadecimal digits. */
  predicate IsGroup(g: Text) {
    1 <= |g| <= 4 && AllDigits(g, 16)
  }

  predicate AreGroups(groups: seq<Text>) {
    forall i :: 0 <= i < |groups| ==> IsGroup(groups[i])
  }

  predicate Valid(a: Address) {
    match a
    case Dotted(octets) => |octets| == 4 && forall i :: 0 <= i < 4 ==> octets[i] < 256
    case Full(groups) => |groups| == 8 && AreGroups(groups)
    case Short(left, right) => |left| + |right| <= 7 && AreGroups(left) && AreGroups(right)
  }

  function Decimals(octets: seq<nat>): (r: seq<Text>)
    ensures |r| == |octets| && forall i :: 0 <= i < |r| ==> r[i] == Numeral(octets[i], 10)
  {
    seq(|octets|, i requires 0 <= i < |octets| => Numeral(octets[i], 10))
  }

  /** The address as text. */
  function Written(a: Address): Text {
    match a
    case Dotted(octets) => Join(Decimals(octets), [DOT])
    case Full(groups) => Join(groups, [COLON])
    case Short(left, right) => Join(left, [COLON]) + DOUBLE + Join(right, [COLON])
  }

  function Kind(a: Address): Family {
    if a.Dotted? then IPv4 else IPv6
  }

  function Width(a: Address): nat {
    if a.Dotted? then 32 else 128
  }

  /** The eight groups, with the zeros that "::" leaves out. */
  function AllGroups(a: Address): (r: seq<Text>)
    requires Valid(a) && !a.Dotted?
    ensures |r| == 8 && AreGroups(r)
  {
    if a.Full? then a.groups else a.left + Fill(8 - |a.left| - |a.right|) + a.right
  }

  function GroupValues(groups: seq<Text>): (r: seq<nat>)
    ensures |r| == |groups| && forall i :: 0 <= i < |r| ==> r[i] == Value(groups[i], 16)
  {
    seq(|groups|, i requires 0 <= i < |groups| => Value(groups[i], 16))
  }

  /** The address as a 32 or 128 bit number. */
  function NumberOf(a: Address): nat
    requires Valid(a)
  {
    if a.Dotted? then Number(a.octets, 8) else Number(GroupValues(AllGroups(a)), 16)
  }

  /** Written with "::ffff:", the one form the subnet test refuses. */
  predicate IsMapped(a: Address) {
    a.Short? && |a.right| >= 2 && a.right[0] == FFFF
  }

  // ----- the shape of written groups

  /** No colon at either end, no two in a row. */
  predicate Gapless(s: Text) {
    && (s == [] || (s[0] != COLON && s[|s| - 1] != COLON))
    && forall i :: 0 <= i < |s| - 1 ==> !(s[i] == COLON && s[i + 1] == COLON)
  }

  lemma GroupHasNoColon(g: Text)
    requires IsGroup(g)
    ensures COLON !in g && SLASH !in g && PERCENT !in g && Gapless(g)
  {
    assert forall i :: 0 <= i < |g| ==> g[i] != COLON && g[i] != SLASH && g[i] != PERCENT;
  }

  lemma GaplessConcat(a: Text, b: Text)
    requires a != [] && b != [] && Gapless(a) && Gapless(b)
    ensures Gapless(a + [COLON] + b)
  {
    var s := a + [COLON] + b;
    forall i | 0 <= i < |s| - 1
      ensures !(s[i] == COLON && s[i + 1] == COLON)
    {
      if i + 1 < |a| {
        assert s[i] == a[i] && s[i + 1] == a[i + 1];
      } else if i + 1 == |a| {
        assert s[i] == a[i];
      } else if i == |a| {
        assert s[i + 1] == b[0];
      } else {
        assert s[i] == b[i - |a| - 1] && s[i + 1] == b[i - |a|];
      }
    }
  }

  lemma {:induction false} JoinedIsGapless(groups: seq<Text>)
    requires AreGroups(groups)
    ensures Gapless(Join(groups, [COLON])) && (groups != [] ==> Join(groups, [COLON]) != [])
  {
    if |groups| == 1 {
      GroupHasNoColon(groups[0]);
    } else if |groups| > 1 {
      JoinedIsGapless(groups[1..]);
      GroupHasNoColon(groups[0]);
      GaplessConcat(groups[0], Join(groups[1..], [COLON]));
    }
  }

  lemma SplitJoined(groups: seq<Text>)
    requires AreGroups(groups)
    ensures Groups(Join(groups, [COLON])) == groups
  {
    JoinedIsGapless(groups);
    if groups != [] {
      forall i | 0 <= i < |groups|
        ensures COLON !in groups[i]
      {
        GroupHasNoColon(groups[i]);
      }
      SplitUndoesJoin(groups, COLON);
    }
  }

  lemma GaplessHasNoDouble(s: Text)
    requires Gapless(s)
    ensures Split(s, DOUBLE) == [s] && !Includes(s, DOUBLE)
  {
    forall i | 0 <= i <= |s|
      ensures !(DOUBLE <= s[i..])
    {
      assert |s[i..]| == |s| - i;
      assert i + 1 < |s| ==> s[i..][0] == s[i] && s[i..][1] == s[i + 1];
    }
    SplitNone(s, DOUBLE);
  }

  lemma SplitShort(a: Text, b: Text)
    requires Gapless(a) && Gapless(b)
    ensures Split(a + DOUBLE + b, DOUBLE) == [a, b]
    ensures Includes(a + DOUBLE + b, DOUBLE)
  {
    hide Split, Includes;
    var s := a + DOUBLE + b;
    forall i | 0 <= i < |a|
      ensures !(DOUBLE <= s[i..])
    {
      NoDoubleAt(a, b, i);
    }
    SplitFirst(a, DOUBLE, b);
    GaplessHasNoDouble(b);
    IncludesAt(s, DOUBLE, |a|);
  }

  lemma NoDoubleAt(a: Text, b: Text, i: nat)
    requires Gapless(a) && i < |a|
    ensures !(DOUBLE <= (a + DOUBLE + b)[i..])
  {
    var s := a + DOUBLE + b;
    assert s[i..][0] == a[i];
    assert s[i..][1] == s[i + 1];
    assert i + 1 < |a| ==> s[i + 1] == a[i + 1];
  }

  lemma IncludesAt(s: Text, part: Text, i: nat)
    requires i + |part| <= |s| && s[i..i + |part|] == part
    ensures Includes(s, part)
  {
    assert part <= s[i..];
  }

  // ----- "::ffff:"

  lemma MappedNeedsDouble(s: Text)
    requires Includes(s, MAPPED)
    ensures Includes(s, DOUBLE)
  {
    var i :| 0 <= i <= |s| && MAPPED <= s[i..];
    assert MAPPED[..2] == DOUBLE;
    assert DOUBLE <= s[i..];
  }

  /** "::ffff:" can only start where "::" is. */
  lemma MappedFollows(a: Text, b: Text)
    requires Gapless(a) && Gapless(b)
    ensures Includes(a + DOUBLE + b, MAPPED) <==> FFFF + [COLON] <= b
  {
    var s := a + DOUBLE + b;
    assert s[|a|..] == DOUBLE + b;
    assert MAPPED == DOUBLE + (FFFF + [COLON]);
    if FFFF + [COLON] <= b {
      assert MAPPED <= s[|a|..];
    }
    if Includes(s, MAPPED) {
      var i :| 0 <= i <= |s| && MAPPED <= s[i..];
      assert MAPPED[..2] == DOUBLE;
      assert DOUBLE <= s[i..];
      DoubleIsAt(a, b, i);
      assert b == (DOUBLE + b)[2..];
      assert FFFF + [COLON] == MAPPED[2..];
    }
  }

  lemma DoubleIsAt(a: Text, b: Text, i: nat)
    requires Gapless(a) && Gapless(b) && i <= |a + DOUBLE + b|
    ensures DOUBLE <= (a + DOUBLE + b)[i..] ==> i == |a|
  {
    var s := a + DOUBLE + b;
    if i + 1 < |s| {
      assert s[i..][0] == s[i] && s[i..][1] == s[i + 1];
      assert i < |a| ==> s[i] == a[i];
      assert i + 1 < |a| ==> s[i + 1] == a[i + 1];
      assert i == |a| + 1 ==> s[i + 1] == b[0];
      assert i > |a| + 1 ==> s[i] == b[i - |a| - 2] && s[i + 1] == b[i - |a| - 1];
    }
  }

  lemma FirstGroup(right: seq<Text>)
    requires AreGroups(right) && right != []
    ensures right[0] <= Join(right, [COLON]) && COLON !in right[0]
    ensures |right| >= 2 ==> |Join(right, [COLON])| > |right[0]| && Join(right, [COLON])[|right[0]|] == COLON
    ensures |right| == 1 ==> Join(right, [COLON]) == right[0]
  {
    GroupHasNoColon(right[0]);
  }

  lemma MappedGroups(right: seq<Text>)
    requires AreGroups(right)
    ensures FFFF + [COLON] <= Join(right, [COLON]) <==> |right| >= 2 && right[0] == FFFF
  {
    if |right| == 1 {
      FirstGroup(right);
      assert |FFFF + [COLON]| == 5;
    } else if |right| >= 2 {
      FirstGroup(right);
      MarkMeansFirst(right[0], Join(right, [COLON]));
    }
  }

  lemma MarkMeansFirst(g: Text, b: Text)
    requires |g| <= 4 && g <= b && |b| > |g| && b[|g|] == COLON && COLON !in g
    ensures FFFF + [COLON] <= b <==> g == FFFF
  {
    var mark := FFFF + [COLON];
    if g == FFFF {
      assert b[..5] == mark;
    }
    assert |g| < 4 ==> mark[|g|] == 102;
    assert |g| == 4 && |b| >= 5 ==> b[..4] == g && mark[..4] == FFFF;
  }

  lemma WrittenMapped(a: Address)
    requires Valid(a) && !a.Dotted?
    ensures Includes(Written(a), MAPPED) <==> IsMapped(a)
  {
    if a.Full? {
      JoinedIsGapless(a.groups);
      GaplessHasNoDouble(Written(a));
      if Includes(Written(a), MAPPED) { MappedNeedsDouble(Written(a)); }
    } else {
      JoinedIsGapless(a.left);
      JoinedIsGapless(a.right);
      MappedFollows(Join(a.left, [COLON]), Join(a.right, [COLON]));
      MappedGroups(a.right);
    }
  }

  // ----- from text to bits

  lemma ExpandOne(ip: Text, groups: seq<Text>)
    requires !Includes(ip, MAPPED) && Split(ip, DOUBLE) == [ip] && Groups(ip) == groups && |groups| == 8
    ensures ExpandIPv6(ip) == Some(Join(PadAll(groups), [COLON]))
  {
    hide Includes, Split, Groups, Join;
    assert groups + Fill(0) + [] == groups;
  }

  lemma ExpandFull(groups: seq<Text>)
    requires |groups| == 8 && AreGroups(groups)
    ensures ExpandIPv6(Join(groups, [COLON])) == Some(Join(PadAll(groups), [COLON]))
  {
    hide Includes, Split, Groups, Join, Gapless, ExpandIPv6;
    var s := Join(groups, [COLON]);
    WrittenMapped(Full(groups));
    JoinedIsGapless(groups);
    GaplessHasNoDouble(s);
    SplitJoined(groups);
    ExpandOne(s, groups);
  }

  lemma ExpandParts(ip: Text, a: Text, b: Text, left: seq<Text>, right: seq<Text>, groups: seq<Text>)
    requires !Includes(ip, MAPPED) && Split(ip, DOUBLE) == [a, b]
    requires Groups(a) == left && Groups(b) == right && |left| + |right| <= 8
    requires groups == left + Fill(8 - |left| - |right|) + right
    ensures ExpandIPv6(ip) == Some(Join(PadAll(groups), [COLON]))
  {
  }

  lemma SplitWritten(left: seq<Text>, right: seq<Text>)
    requires AreGroups(left) && AreGroups(right)
    ensures Split(Written(Short(left, right)), DOUBLE) == [Join(left, [COLON]), Join(right, [COLON])]
    ensures Groups(Join(left, [COLON])) == left && Groups(Join(right, [COLON])) == right
    ensures Includes(Written(Short(left, right)), DOUBLE)
  {
    JoinedIsGapless(left);
    JoinedIsGapless(right);
    SplitShort(Join(left, [COLON]), Join(right, [COLON]));
    SplitJoined(left);
    SplitJoined(right);
  }

  lemma ExpandShort(left: seq<Text>, right: seq<Text>, ip: Text)
    requires Valid(Short(left, right)) && ip == Written(Short(left, right)) && !Includes(ip, MAPPED)
    ensures ExpandIPv6(ip) == Some(Join(PadAll(AllGroups(Short(left, right))), [COLON]))
  {
    SplitWritten(left, right);
    ExpandParts(ip, Join(left, [COLON]), Join(right, [COLON]), left, right, AllGroups(Short(left, right)));
  }

  /** A mapped address is refused, any other is expanded to its eight groups. */
  lemma ExpandWritten(a: Address)
    requires Valid(a) && !a.Dotted?
    ensures IsMapped(a) ==> ExpandIPv6(Written(a)) == None
    ensures !IsMapped(a) ==> ExpandIPv6(Written(a)) == Some(Join(PadAll(AllGroups(a)), [COLON]))
  {
    WrittenMapped(a);
    match a
    case Full(groups) => ExpandFull(groups);
    case Short(left, right) =>
      if !IsMapped(a) {
        ExpandShort(left, right, Written(a));
      }
  }

  lemma PaddedGroup(g: Text)
    requires IsGroup(g)
    ensures |PadStart(g, 4)| == 4 && IsGroup(PadStart(g, 4)) && Value(PadStart(g, 4), 16) == Value(g, 16)
  {
    PadStartKeepsValue(g, 4, 16);
  }

  lemma GroupReads(g: Text)
    requires IsGroup(g)
    ensures Reads(PadStart(g, 4), 16, 16, Value(g, 16))
  {
    PaddedGroup(g);
    var p := PadStart(g, 4);
    ParseIntReads(p, 16);
    FourDigits(p);
  }

  lemma FourDigits(p: Text)
    requires |p| == 4 && AllDigits(p, 16)
    ensures Value(p, 16) < Pow2(16)
  {
    assert p[..3][..2] == p[..2] && p[..2][..1] == p[..1] && p[..1][..0] == [];
    assert Value(p[..1], 16) < 16;
    assert Value(p[..2], 16) < 256;
    assert Value(p[..3], 16) < 4096;
    assert Value(p, 16) < 65536;
    SixteenBits();
  }

  lemma SixteenBits()
    ensures Pow2(8) == 256 && Pow2(16) == 65536
  {
    assert Pow2(4) == 16;
    assert Pow2(8) == 256;
    assert Pow2(12) == 4096;
    assert Pow2(16) == 65536;
  }

  lemma OctetReads(octet: nat)
    requires octet < 256
    ensures Reads(Numeral(octet, 10), 10, 8, octet) && DOT !in Numeral(octet, 10)
  {
    ParseIntReads(Numeral(octet, 10), 10);
    NumeralReads(octet, 10);
    SixteenBits();
  }

  ghost predicate AllRead(parts: seq<Text>, values: seq<nat>, radix: nat, width: nat) {
    |parts| == |values| && forall i :: 0 <= i < |parts| ==> Reads(parts[i], radix, width, values[i])
  }

  lemma GroupsRead(a: Address)
    requires Valid(a) && !a.Dotted?
    ensures AllRead(PadAll(AllGroups(a)), GroupValues(AllGroups(a)), 16, 16)
  {
    var groups := AllGroups(a);
    forall i | 0 <= i < 8
      ensures Reads(PadAll(groups)[i], 16, 16, GroupValues(groups)[i])
    {
      GroupReads(groups[i]);
    }
  }

  lemma SplitPadded(groups: seq<Text>)
    requires AreGroups(groups) && groups != []
    ensures Split(Join(PadAll(groups), [COLON]), [COLON]) == PadAll(groups)
  {
    forall i | 0 <= i < |groups|
      ensures IsGroup(PadAll(groups)[i])
    {
      PaddedGroup(groups[i]);
    }
    SplitJoined(PadAll(groups));
    JoinedIsGapless(PadAll(groups));
  }

  /** The bits of a written IPv6 address, group by group. */
  lemma GroupBits(a: Address)
    requires Valid(a) && !a.Dotted?
    ensures IpToBinary(IPv6, Written(a)) == if IsMapped(a) then None else Some(Bits(PadAll(AllGroups(a)), 16, 16))
  {
    ExpandWritten(a);
    SplitPadded(AllGroups(a));
  }

  /** The bits of a written IPv4 address, octet by octet. */
  lemma OctetBits(a: Address)
    requires Valid(a) && a.Dotted?
    ensures IpToBinary(IPv4, Written(a)) == Some(Bits(Decimals(a.octets), 10, 8))
    ensures AllRead(Decimals(a.octets), a.octets, 10, 8)
  {
    forall i | 0 <= i < 4
      ensures DOT !in Decimals(a.octets)[i] && Reads(Decimals(a.octets)[i], 10, 8, a.octets[i])
    {
      OctetReads(a.octets[i]);
    }
    SplitUndoesJoin(Decimals(a.octets), DOT);
  }

  ghost predicate Spells(bits: Option<Text>, a: Address)
    requires Valid(a)
  {
    bits.Some? && |bits.value| == Width(a) && LowerDigits(bits.value, 2) && Value(bits.value, 2) == NumberOf(a)
  }

  /** The marks the source looks for. */
  lemma MarksAreSpelled()
    ensures MAPPED == Ascii("::ffff:") && DOUBLE == Ascii("::")
    ensures [COLON] == Ascii(":") && [DOT] == Ascii(".") && [SLASH] == Ascii("/")
  {
  }

  /** The binary text of an address spells its number in full width. */
  lemma BinaryOfWritten(a: Address)
    requires Valid(a)
    ensures var bits := IpToBinary(Kind(a), Written(a)); if IsMapped(a) then bits == None else Spells(bits, a)
  {
    if a.Dotted? {
      OctetBits(a);
      BitsSpellNumber(Decimals(a.octets), a.octets, 10, 8);
    } else {
      GroupBits(a);
      GroupsRead(a);
      BitsSpellNumber(PadAll(AllGroups(a)), GroupValues(AllGroups(a)), 16, 16);
    }
  }

  // ----- the test means CIDR

  /** Section 3.1 of RFC 4632: the leading `prefix` bits agree. */
  ghost predicate SameBlock(a: Address, b: Address, prefix: int)
    requires Valid(a) && Valid(b)
  {
    && Kind(a) == Kind(b)
    && var low := Width(a) - Clamp(prefix, Width(a)); QuotientOf(NumberOf(a), low) == QuotientOf(NumberOf(b), low)
  }

  lemma {:induction false} JoinLacks(parts: seq<Text>, separator: CodeUnit, c: CodeUnit)
    requires c != separator && forall i :: 0 <= i < |parts| ==> c !in parts[i]
    ensures c !in Join(parts, [separator])
  {
    if |parts| > 1 { JoinLacks(parts[1..], separator, c); }
  }

  lemma GroupsLack(groups: seq<Text>, c: CodeUnit)
    requires AreGroups(groups) && (c == SLASH || c == PERCENT)
    ensures c !in Join(groups, [COLON])
  {
    forall i | 0 <= i < |groups|
      ensures c !in groups[i]
    {
      GroupHasNoColon(groups[i]);
    }
    JoinLacks(groups, COLON, c);
  }

  lemma WrittenIsPlain(a: Address)
    requires Valid(a)
    ensures Written(a) != [] && SLASH !in Written(a)
    ensures !a.Dotted? ==> PERCENT !in Written(a) && COLON in Written(a)
    ensures a.Dotted? ==> COLON !in Written(a)
  {
    match a
    case Dotted(octets) =>
      JoinLacks(Decimals(octets), DOT, SLASH);
      JoinLacks(Decimals(octets), DOT, COLON);
      assert Decimals(octets)[0] <= Written(a);
    case Full(groups) =>
      GroupsLack(groups, SLASH);
      GroupsLack(groups, PERCENT);
      assert Written(a)[|groups[0]|] == COLON;
    case Short(left, right) =>
      GroupsLack(left, SLASH);
      GroupsLack(left, PERCENT);
      GroupsLack(right, SLASH);
      GroupsLack(right, PERCENT);
      assert Written(a)[|Join(left, [COLON])|] == COLON;
  }

  /** The comparison at the end of the test. */
  predicate SamePrefix(x: Option<Text>, y: Option<Text>, prefix: int) {
    && x.Some? && y.Some? && |x.value| == |y.value|
    && Substring(x.value, prefix) == Substring(y.value, prefix)
  }

  /** Addresses of two families differ in length, so their prefixes are not even compared. */
  lemma FamiliesApart(x: Option<Text>, y: Option<Text>, a: Address, b: Address, prefix: int)
    requires Valid(a) && Valid(b) && Spells(x, a) && Spells(y, b) && Kind(a) != Kind(b)
    ensures !SamePrefix(x, y, prefix) && !SameBlock(a, b, prefix)
  {
    hide NumberOf, Value, LowerDigits, Substring, QuotientOf;
  }

  lemma FamilyPrefixes(x: Text, y: Text, a: Address, b: Address, prefix: int)
    requires Valid(a) && Valid(b) && Kind(a) == Kind(b)
    requires |x| == |y| == Width(a) == Width(b) && LowerDigits(x, 2) && LowerDigits(y, 2)
    requires Value(x, 2) == NumberOf(a) && Value(y, 2) == NumberOf(b)
    ensures SamePrefix(Some(x), Some(y), prefix) <==> SameBlock(a, b, prefix)
  {
    hide NumberOf, Value, LowerDigits, QuotientOf;
    PrefixIsQuotient(x, y, Clamp(prefix, Width(a)));
  }

  lemma PrefixesAgree(x: Option<Text>, y: Option<Text>, a: Address, b: Address, prefix: int)
    requires Valid(a) && Valid(b) && Spells(x, a) && Spells(y, b)
    ensures SamePrefix(x, y, prefix) <==> SameBlock(a, b, prefix)
  {
    hide NumberOf, Value, LowerDigits, SamePrefix, SameBlock;
    if Kind(a) == Kind(b) {
      FamilyPrefixes(x.value, y.value, a, b, prefix);
    } else {
      FamiliesApart(x, y, a, b, prefix);
    }
  }

  lemma TestComparesPrefixes(node: Text -> Family, ip: Text, net: Text, suffix: Text)
    requires net != [] && SLASH !in net
    ensures var prefix := ParseInt(Split(suffix, [SLASH])[0], 10);
            IsIpInSubnet(node, ip, net + [SLASH] + suffix) <==>
            prefix.Some? && SamePrefix(IpToBinary(node(ip), ip), IpToBinary(node(net), net), prefix.value)
  {
    SplitAt(net, SLASH, suffix);
    var parts := Split(net + [SLASH] + suffix, [SLASH]);
    assert parts[0] == net && parts[1] == Split(suffix, [SLASH])[0];
  }

  /**
   * For any valid address and any text after the slash: the test holds exactly when that text starts
   * with an integer, neither address is written with "::ffff:", and both lie in one CIDR block.
   * A length below 0 counts as 0, one above the width as the width.
   */
  lemma SubnetTestMeansCidr(node: Text -> Family, a: Address, b: Address, suffix: Text)
    requires Valid(a) && Valid(b)
    requires node(Written(a)) == Kind(a) && node(Written(b)) == Kind(b)
    ensures var prefix := ParseInt(Split(suffix, [SLASH])[0], 10);
            IsIpInSubnet(node, Written(a), Written(b) + [SLASH] + suffix) <==>
            prefix.Some? && !IsMapped(a) && !IsMapped(b) && SameBlock(a, b, prefix.value)
  {
    WrittenIsPlain(b);
    TestComparesPrefixes(node, Written(a), Written(b), suffix);
    BinaryOfWritten(a);
    BinaryOfWritten(b);
    var prefix := ParseInt(Split(suffix, [SLASH])[0], 10);
    if prefix.Some? && !IsMapped(a) && !IsMapped(b) {
      PrefixesAgree(IpToBinary(Kind(a), Written(a)), IpToBinary(Kind(b), Written(b)), a, b, prefix.value);
    }
  }

  /** A length of 0 or below, like `-1`, takes in every address of the family; one above the width only itself. */
  lemma LengthsOutOfRange(node: Text -> Family, a: Address, b: Address, suffix: Text)
    requires Valid(a) && Valid(b) && !IsMapped(a) && !IsMapped(b)
    requires node(Written(a)) == Kind(a) && node(Written(b)) == Kind(b)
    ensures var prefix := ParseInt(Split(suffix, [SLASH])[0], 10);
            && (prefix.Some? && prefix.value <= 0 ==>
                  (IsIpInSubnet(node, Written(a), Written(b) + [SLASH] + suffix) <==> Kind(a) == Kind(b)))
            && (prefix.Some? && prefix.value >= Width(b) ==>
                  (IsIpInSubnet(node, Written(a), Written(b) + [SLASH] + suffix) <==>
                   Kind(a) == Kind(b) && NumberOf(a) == NumberOf(b)))
  {
    hide IsIpInSubnet, ParseInt, Split, Written, NumberOf, Pow2;
    SubnetTestMeansCidr(node, a, b, suffix);
    BelowWidth(a);
    BelowWidth(b);
    WholeAddress(a);
    WholeAddress(b);
  }

  lemma BelowWidth(a: Address)
    requires Valid(a) && !IsMapped(a)
    ensures QuotientOf(NumberOf(a), Width(a)) == 0
  {
    hide NumberOf, IpToBinary;
    BinaryOfWritten(a);
    var bits := IpToBinary(Kind(a), Written(a)).value;
    PrefixValue(bits, 0);
    assert bits[..0] == [];
  }

  lemma WholeAddress(a: Address)
    requires Valid(a)
    ensures QuotientOf(NumberOf(a), 0) == NumberOf(a)
  {
  }

  /** `parseInt("-1")` is such a length. */
  lemma MinusOneIsRead()
    ensures ParseInt(Split([MINUS, 49], [SLASH])[0], 10) == Some(-1)
  {
    var s: Text := [49];
    assert [MINUS] + s == [MINUS, 49];
    SplitOne([MINUS, 49], SLASH);
    ParseIntNegates(s, 10);
    assert s[..0] == [];
  }

  /** `net/p` written in the usual way, 0 <= p <= width. */
  lemma SubnetTestOfLength(node: Text -> Family, a: Address, b: Address, prefix: nat, text: Text)
    requires Valid(a) && Valid(b) && prefix <= Width(b) && text == Numeral(prefix, 10)
    requires node(Written(a)) == Kind(a) && node(Written(b)) == Kind(b)
    ensures IsIpInSubnet(node, Written(a), Written(b) + [SLASH] + text) <==>
            !IsMapped(a) && !IsMapped(b) && SameBlock(a, b, prefix)
  {
    NumeralIsRead(prefix);
    SubnetTestMeansCidr(node, a, b, text);
  }

  lemma NumeralIsRead(n: nat)
    ensures ParseInt(Split(Numeral(n, 10), [SLASH])[0], 10) == Some(n)
  {
    SplitOne(Numeral(n, 10), SLASH);
    ParseIntReads(Numeral(n, 10), 10);
    NumeralReads(n, 10);
  }

  /** A subnet without a length, and an address or network that is none, never match. */
  lemma NeverMatches(node: Text -> Family, ip: Text, subnet: Text)
    requires SLASH !in subnet || node(ip) == NoIp || node(Split(subnet, [SLASH])[0]) == NoIp
    ensures !IsIpInSubnet(node, ip, subnet)
  {
    if SLASH !in subnet { SplitOne(subnet, SLASH); }
  }
}
