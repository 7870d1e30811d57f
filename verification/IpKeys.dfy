/** The limiter key of an address: IPv6 addresses of one /64 share it. */
module IpKeys {
  import opened JsText
  import opened Numerals
  import opened Subnets
  import opened AddressText

  const UNKNOWN: Text := [63]
  const SUFFIX: Text := DOUBLE + [SLASH, 54, 52]

  predicate IsLineBreak(c: CodeUnit) {
    IsTerminator(c) || c == 0x2028 || c == 0x2029
  }

  /** `g.replace(/^0+(?=.)/, "")` */
  function StripZeros(g: Text): Text {
    if |g| > 1 && g[0] == ZERO && !IsLineBreak(g[1]) then StripZeros(g[1..]) else g
  }

  function StripAll(groups: seq<Text>): (r: seq<Text>)
    ensures |r| == |groups| && forall i :: 0 <= i < |r| ==> r[i] == StripZeros(groups[i])
  {
    seq(|groups|, i requires 0 <= i < |groups| => StripZeros(groups[i]))
  }

  function FirstFour(groups: seq<Text>): (r: seq<Text>)
    ensures r <= groups && |r| <= 4 && (r == groups || |r| == 4)
  {
    if |groups| <= 4 then groups else groups[..4]
  }

  /** The groups a key is made of. */
  function KeyGroups(ip: Text): seq<Text> {
    var parts := Split(Fold(Split(ip, [PERCENT])[0]), DOUBLE);
    var left := Groups(parts[0]);
    var right := if |parts| > 1 then Groups(parts[1]) else [];
    var missing := if Includes(ip, DOUBLE) then 8 - |left| - |right| else 0;
    left + Fill(if missing < 0 then 0 else missing) + right
  }

  function IpKey(ip: Option<Text>): Text {
    if ip.None? || ip.value == [] then UNKNOWN
    else if COLON !in ip.value then ip.value
    else Join(StripAll(FirstFour(KeyGroups(ip.value))), [COLON]) + SUFFIX
  }

  // ----- lower case

  function FoldAll(groups: seq<Text>): (r: seq<Text>)
    ensures |r| == |groups| && forall i :: 0 <= i < |r| ==> r[i] == Fold(groups[i])
  {
    seq(|groups|, i requires 0 <= i < |groups| => Fold(groups[i]))
  }

  lemma {:induction false} FoldJoin(groups: seq<Text>)
    ensures Fold(Join(groups, [COLON])) == Join(FoldAll(groups), [COLON])
  {
    if |groups| > 1 {
      FoldJoin(groups[1..]);
      FoldConcat(groups[0] + [COLON], Join(groups[1..], [COLON]));
      FoldConcat(groups[0], [COLON]);
      assert FoldAll(groups)[1..] == FoldAll(groups[1..]);
    }
  }

  lemma {:induction false} FoldKeepsValue(g: Text)
    requires AllDigits(g, 16)
    ensures LowerDigits(Fold(g), 16) && Value(Fold(g), 16) == Value(g, 16)
  {
    if g != [] {
      var n := |g| - 1;
      FoldKeepsValue(g[..n]);
      assert Fold(g)[..n] == Fold(g[..n]);
    }
  }

  lemma FoldGroups(groups: seq<Text>)
    requires AreGroups(groups)
    ensures AreGroups(FoldAll(groups)) && GroupValues(FoldAll(groups)) == GroupValues(groups)
  {
    forall i | 0 <= i < |groups|
      ensures IsGroup(FoldAll(groups)[i]) && Value(FoldAll(groups)[i], 16) == Value(groups[i], 16)
    {
      FoldKeepsValue(groups[i]);
    }
  }

  // ----- the groups of a key are the groups of the address

  lemma KeyOfOnePart(ip: Text, s: Text, groups: seq<Text>)
    requires PERCENT !in ip && !Includes(ip, DOUBLE) && Fold(ip) == s
    requires Split(s, DOUBLE) == [s] && Groups(s) == groups
    ensures KeyGroups(ip) == groups
  {
    SplitOne(ip, PERCENT);
    assert groups + Fill(0) + [] == groups;
  }

  lemma KeyOfTwoParts(ip: Text, s: Text, a: Text, b: Text, left: seq<Text>, right: seq<Text>)
    requires PERCENT !in ip && Includes(ip, DOUBLE) && Fold(ip) == s && Split(s, DOUBLE) == [a, b]
    requires Groups(a) == left && Groups(b) == right && |left| + |right| <= 8
    ensures KeyGroups(ip) == left + Fill(8 - |left| - |right|) + right
  {
    hide Split, Groups, Includes, Fold;
    SplitOne(ip, PERCENT);
  }

  lemma JoinedIsOnePart(groups: seq<Text>)
    requires AreGroups(groups)
    ensures var s := Join(groups, [COLON]); Split(s, DOUBLE) == [s] && !Includes(s, DOUBLE) && Groups(s) == groups
  {
    JoinedIsGapless(groups);
    GaplessHasNoDouble(Join(groups, [COLON]));
    SplitJoined(groups);
  }

  lemma KeyGroupsFull(groups: seq<Text>, ip: Text)
    requires AreGroups(groups) && ip == Join(groups, [COLON]) && PERCENT !in ip
    ensures KeyGroups(ip) == FoldAll(groups)
  {
    JoinedIsOnePart(groups);
    FoldGroups(groups);
    FoldJoin(groups);
    JoinedIsOnePart(FoldAll(groups));
    KeyOfOnePart(ip, Fold(ip), FoldAll(groups));
  }

  lemma FoldShort(left: seq<Text>, right: seq<Text>)
    ensures Fold(Written(Short(left, right))) == Written(Short(FoldAll(left), FoldAll(right)))
  {
    FoldConcat(Join(left, [COLON]) + DOUBLE, Join(right, [COLON]));
    FoldConcat(Join(left, [COLON]), DOUBLE);
    FoldJoin(left);
    FoldJoin(right);
  }

  lemma KeyGroupsShort(left: seq<Text>, right: seq<Text>, l: seq<Text>, r: seq<Text>, ip: Text)
    requires Valid(Short(left, right)) && ip == Written(Short(left, right)) && PERCENT !in ip
    requires l == FoldAll(left) && r == FoldAll(right)
    ensures KeyGroups(ip) == l + Fill(8 - |l| - |r|) + r
  {
    SplitWritten(left, right);
    FoldGroups(left);
    FoldGroups(right);
    FoldShort(left, right);
    SplitWritten(l, r);
    KeyOfTwoParts(ip, Written(Short(l, r)), Join(l, [COLON]), Join(r, [COLON]), l, r);
  }

  lemma FoldAround(left: seq<Text>, n: nat, right: seq<Text>)
    ensures FoldAll(left + Fill(n) + right) == FoldAll(left) + Fill(n) + FoldAll(right)
  {
    assert Fold([ZERO]) == [ZERO];
  }

  lemma KeyGroupsOfShort(left: seq<Text>, right: seq<Text>, ip: Text, groups: seq<Text>)
    requires Valid(Short(left, right)) && ip == Written(Short(left, right)) && PERCENT !in ip
    requires groups == left + Fill(8 - |left| - |right|) + right
    ensures KeyGroups(ip) == FoldAll(groups)
  {
    hide KeyGroups, Written, Valid, Fold;
    KeyGroupsShort(left, right, FoldAll(left), FoldAll(right), ip);
    FoldAround(left, 8 - |left| - |right|, right);
  }

  lemma KeyGroupsOfWritten(a: Address, ip: Text)
    requires Valid(a) && !a.Dotted? && ip == Written(a)
    ensures KeyGroups(ip) == FoldAll(AllGroups(a))
  {
    WrittenIsPlain(a);
    match a
    case Full(groups) => KeyGroupsFull(groups, ip);
    case Short(left, right) => KeyGroupsOfShort(left, right, ip, AllGroups(a));
  }

  // ----- one spelling for each group value

  lemma {:induction false} StripIsSuffix(g: Text)
    requires g != []
    ensures StripZeros(g) != [] && |StripZeros(g)| <= |g|
    ensures g == Zeros(|g| - |StripZeros(g)|) + StripZeros(g)
  {
    if |g| > 1 && g[0] == ZERO && !IsLineBreak(g[1]) {
      StripIsSuffix(g[1..]);
      ZeroFirst(g, g[1..], StripZeros(g[1..]));
    }
  }

  lemma StripIsDigits(g: Text)
    requires g != [] && LowerDigits(g, 16)
    ensures LowerDigits(StripZeros(g), 16)
  {
    hide StripZeros;
    StripIsSuffix(g);
    var n := |g| - |StripZeros(g)|;
    assert forall i :: 0 <= i < |StripZeros(g)| ==> StripZeros(g)[i] == g[n + i];
  }

  lemma ZeroFirst(g: Text, rest: Text, s: Text)
    requires g != [] && g[0] == ZERO && rest == g[1..] && |s| <= |rest|
    requires rest == Zeros(|rest| - |s|) + s
    ensures g == Zeros(|g| - |s|) + s
  {
    assert g == [ZERO] + rest;
  }

  lemma {:induction false} StripDropsZeros(n: nat, g: Text)
    requires g != [] && LowerDigits(g, 16)
    ensures StripZeros(Zeros(n) + g) == StripZeros(g)
  {
    var s := Zeros(n) + g;
    if n > 0 {
      assert s[1..] == Zeros(n - 1) + g;
      assert s[1] == ZERO || s[1] == g[0];
      StripDropsZeros(n - 1, g);
    } else {
      assert s == g;
    }
  }

  lemma StripKeepsValue(x: Text)
    requires x != [] && LowerDigits(x, 16)
    ensures Value(StripZeros(x), 16) == Value(x, 16)
  {
    StripIsSuffix(x);
    LeadingZeros(|x| - |StripZeros(x)|, StripZeros(x), 16);
  }

  lemma PadStrips(x: Text, p: Text)
    requires 1 <= |x| <= 4 && LowerDigits(x, 16) && p == PadStart(x, 4)
    ensures |p| == 4 && LowerDigits(p, 16) && Value(p, 16) == Value(x, 16)
    ensures StripZeros(p) == StripZeros(x)
  {
    PadStartKeepsValue(x, 4, 16);
    if |x| < 4 { StripDropsZeros(4 - |x|, x); }
  }

  lemma EqualValueEqualStrip(x: Text, y: Text)
    requires 1 <= |x| <= 4 && 1 <= |y| <= 4 && LowerDigits(x, 16) && LowerDigits(y, 16)
    ensures StripZeros(x) == StripZeros(y) <==> Value(x, 16) == Value(y, 16)
  {
    StripKeepsValue(x);
    StripKeepsValue(y);
    var p, q := PadStart(x, 4), PadStart(y, 4);
    PadStrips(x, p);
    PadStrips(y, q);
    if Value(p, 16) == Value(q, 16) {
      SameLengthInjective(p, q, 16);
    }
  }

  /** Stripped lower case digits agree exactly when the values do. */
  lemma SpellingIsValue(g: Text, h: Text)
    requires IsGroup(g) && IsGroup(h)
    ensures StripZeros(Fold(g)) == StripZeros(Fold(h)) <==> Value(g, 16) == Value(h, 16)
  {
    FoldKeepsValue(g);
    FoldKeepsValue(h);
    EqualValueEqualStrip(Fold(g), Fold(h));
  }

  // ----- equal keys

  function KeyParts4(a: Address): (r: seq<Text>)
    requires Valid(a) && !a.Dotted?
    ensures |r| == 4
  {
    StripAll(FoldAll(AllGroups(a))[..4])
  }

  lemma KeyPartHasNoColon(g: Text)
    requires IsGroup(g)
    ensures COLON !in StripZeros(Fold(g))
  {
    FoldKeepsValue(g);
    StripIsDigits(Fold(g));
    assert forall j :: 0 <= j < |StripZeros(Fold(g))| ==> StripZeros(Fold(g))[j] != COLON;
  }

  lemma KeyPartsHaveNoColon(a: Address)
    requires Valid(a) && !a.Dotted?
    ensures forall i :: 0 <= i < 4 ==> COLON !in KeyParts4(a)[i]
  {
    forall i | 0 <= i < 4
      ensures COLON !in KeyParts4(a)[i]
    {
      KeyPartHasNoColon(AllGroups(a)[i]);
      assert KeyParts4(a)[i] == StripZeros(Fold(AllGroups(a)[i]));
    }
  }

  lemma KeyOfWritten(a: Address)
    requires Valid(a) && !a.Dotted?
    ensures IpKey(Some(Written(a))) == Join(KeyParts4(a), [COLON]) + SUFFIX
  {
    WrittenIsPlain(a);
    KeyGroupsOfWritten(a, Written(a));
  }

  lemma JoinedKeysEqual(a: seq<Text>, b: seq<Text>)
    requires a != [] && b != []
    requires forall i :: 0 <= i < |a| ==> COLON !in a[i]
    requires forall i :: 0 <= i < |b| ==> COLON !in b[i]
    ensures Join(a, [COLON]) + SUFFIX == Join(b, [COLON]) + SUFFIX <==> a == b
  {
    SplitUndoesJoin(a, COLON);
    SplitUndoesJoin(b, COLON);
    var x, y := Join(a, [COLON]), Join(b, [COLON]);
    if x + SUFFIX == y + SUFFIX {
      assert |x| == |y|;
      assert x == (x + SUFFIX)[..|x|] && y == (y + SUFFIX)[..|x|];
    }
  }

  lemma KeyPartsEqual(a: Address, b: Address)
    requires Valid(a) && !a.Dotted? && Valid(b) && !b.Dotted?
    ensures KeyParts4(a) == KeyParts4(b) <==> GroupValues(AllGroups(a))[..4] == GroupValues(AllGroups(b))[..4]
  {
    var g, h := AllGroups(a), AllGroups(b);
    forall i | 0 <= i < 4
      ensures KeyParts4(a)[i] == KeyParts4(b)[i] <==> GroupValues(g)[..4][i] == GroupValues(h)[..4][i]
    {
      SpellingIsValue(g[i], h[i]);
    }
  }

  lemma FirstSixtyFour(parts: seq<Text>, values: seq<nat>, bits: Text)
    requires |parts| == 8 && AllRead(parts, values, 16, 16) && bits == Bits(parts, 16, 16)
    ensures |bits| == 128 && LowerDigits(bits, 2) && Value(bits, 2) == Number(values, 16)
    ensures bits[..64] == Bits(parts[..4], 16, 16)
  {
    BitsSpellNumber(parts, values, 16, 16);
    FourBlocks(parts[..4], values[..4]);
    BitsPrefix(parts, 16, 16, 4);
    PrefixSlice(Bits(parts[..4], 16, 16), bits, 64);
  }

  lemma FourBlocks(parts: seq<Text>, values: seq<nat>)
    requires |parts| == 4 && AllRead(parts, values, 16, 16)
    ensures |Bits(parts, 16, 16)| == 64
  {
    BitsLength(parts, values, 16, 16);
  }

  lemma PrefixSlice(a: Text, b: Text, n: nat)
    requires a <= b && |a| == n
    ensures b[..n] == a
  {
  }

  lemma SameLeadingBits(x: Text, y: Text, n: nat, m: nat)
    requires |x| == |y| == 128 && LowerDigits(x, 2) && LowerDigits(y, 2) && Value(x, 2) == n && Value(y, 2) == m
    ensures x[..64] == y[..64] <==> QuotientOf(n, 64) == QuotientOf(m, 64)
  {
    PrefixIsQuotient(x, y, 64);
  }

  lemma FourBlocksEqual(p: seq<Text>, q: seq<Text>, v: seq<nat>, w: seq<nat>)
    requires |p| == |q| == 8 && AllRead(p, v, 16, 16) && AllRead(q, w, 16, 16)
    ensures Bits(p[..4], 16, 16) == Bits(q[..4], 16, 16) <==> v[..4] == w[..4]
  {
    BitsEqual(p[..4], q[..4], v[..4], w[..4], 16, 16);
  }

  lemma FirstFourParts(p: seq<Text>, q: seq<Text>, v: seq<nat>, w: seq<nat>)
    requires |p| == |q| == 8 && AllRead(p, v, 16, 16) && AllRead(q, w, 16, 16)
    ensures QuotientOf(Number(v, 16), 64) == QuotientOf(Number(w, 16), 64) <==> v[..4] == w[..4]
  {
    var x, y := Bits(p, 16, 16), Bits(q, 16, 16);
    FirstSixtyFour(p, v, x);
    FirstSixtyFour(q, w, y);
    SameLeadingBits(x, y, Number(v, 16), Number(w, 16));
    FourBlocksEqual(p, q, v, w);
  }

  lemma SixtyFourOf(a: Address, b: Address)
    requires Valid(a) && !a.Dotted? && Valid(b) && !b.Dotted?
    ensures SameBlock(a, b, 64) <==> QuotientOf(NumberOf(a), 64) == QuotientOf(NumberOf(b), 64)
  {
  }

  /** The leading 64 bits are the first four groups. */
  lemma FourGroupsAreTheBlock(a: Address, b: Address)
    requires Valid(a) && !a.Dotted? && Valid(b) && !b.Dotted?
    ensures SameBlock(a, b, 64) <==> GroupValues(AllGroups(a))[..4] == GroupValues(AllGroups(b))[..4]
  {
    SixtyFourOf(a, b);
    GroupsRead(a);
    GroupsRead(b);
    FirstFourParts(PadAll(AllGroups(a)), PadAll(AllGroups(b)), GroupValues(AllGroups(a)), GroupValues(AllGroups(b)));
  }

  /** Two written IPv6 addresses share a key exactly when they lie in one /64. */
  lemma SharedKeyMeansOneBlock(a: Address, b: Address)
    requires Valid(a) && !a.Dotted? && Valid(b) && !b.Dotted?
    ensures IpKey(Some(Written(a))) == IpKey(Some(Written(b))) <==> SameBlock(a, b, 64)
  {
    KeyOfWritten(a);
    KeyOfWritten(b);
    KeyPartsHaveNoColon(a);
    KeyPartsHaveNoColon(b);
    JoinedKeysEqual(KeyParts4(a), KeyParts4(b));
    KeyPartsEqual(a, b);
    FourGroupsAreTheBlock(a, b);
  }

  /** The two expanders agree: sharing a key is passing the other's /64, unless "::ffff:" makes the test refuse. */
  lemma KeyAgreesWithSubnetTest(node: Text -> Family, a: Address, b: Address, text: Text)
    requires Valid(a) && !a.Dotted? && Valid(b) && !b.Dotted? && text == Numeral(64, 10)
    requires node(Written(a)) == IPv6 && node(Written(b)) == IPv6
    ensures IsIpInSubnet(node, Written(a), Written(b) + [SLASH] + text) <==>
            !IsMapped(a) && !IsMapped(b) && IpKey(Some(Written(a))) == IpKey(Some(Written(b)))
  {
    SharedKeyMeansOneBlock(a, b);
    SubnetTestOfLength(node, a, b, 64, text);
  }

  /** IPv4 addresses keep keys of their own, apart from every IPv6 key and from the unknown address. */
  lemma DottedKeysAreTheirOwn(a: Address, b: Address)
    requires Valid(a) && Valid(b) && a.Dotted?
    ensures IpKey(Some(Written(a))) == IpKey(Some(Written(b))) ==> b.Dotted? && Written(a) == Written(b)
    ensures IpKey(Some(Written(a))) != IpKey(None)
  {
    WrittenIsPlain(a);
    WrittenIsPlain(b);
    if !b.Dotted? {
      KeyOfWritten(b);
      var key := IpKey(Some(Written(b)));
      assert key[|key| - 5..] == SUFFIX;
      assert key[|key| - 5] == COLON;
    }
    OctetReads(a.octets[0]);
    assert Decimals(a.octets)[0] <= Written(a);
    assert Written(a)[0] == Numeral(a.octets[0], 10)[0];
  }

  // ----- what stands around the groups

  /** The unknown address, IPv4 addresses as they are, and `::/64` behind the groups of the others. */
  lemma KeysAreSpelled(ip: Text)
    ensures IpKey(None) == Ascii("?") && IpKey(Some([])) == Ascii("?")
    ensures ip != [] && Ascii(":")[0] !in ip ==> IpKey(Some(ip)) == ip
    ensures Ascii(":")[0] in ip ==> Ascii("::/64") == IpKey(Some(ip))[|IpKey(Some(ip))| - 5..]
  {
    assert UNKNOWN == Ascii("?") && SUFFIX == Ascii("::/64") && Ascii(":") == [COLON];
    hide KeyGroups, StripAll, FirstFour;
  }

  lemma NoColonNoDouble(s: Text, tail: Text)
    requires COLON !in tail
    ensures Includes(s + tail, DOUBLE) <==> Includes(s, DOUBLE)
  {
    if i :| 0 <= i <= |s + tail| && DOUBLE <= (s + tail)[i..] {
      DoubleInside(s, tail, i);
      assert DOUBLE <= s[i..];
    }
    if i :| 0 <= i <= |s| && DOUBLE <= s[i..] {
      assert (s + tail)[i..] == s[i..] + tail;
      assert DOUBLE <= (s + tail)[i..];
    }
  }

  lemma DoubleInside(s: Text, tail: Text, i: nat)
    requires COLON !in tail && i <= |s + tail| && DOUBLE <= (s + tail)[i..]
    ensures i <= |s| && DOUBLE <= s[i..]
  {
    var all := s + tail;
    assert all[i..][1] == COLON && all[i..][0] == COLON;
    assert all[i + 1] == COLON && all[i] == COLON;
    assert forall k :: |s| <= k < |all| ==> all[k] == tail[k - |s|];
    assert i + 1 < |s|;
    assert s[i..][0] == COLON && s[i..][1] == COLON;
  }

  lemma KeyWithZone(ip: Text, zone: Text)
    requires PERCENT !in ip && COLON !in zone && COLON in ip
    ensures KeyGroups(ip + ([PERCENT] + zone)) == KeyGroups(ip)
  {
    SplitAt(ip, PERCENT, zone);
    SplitOne(ip, PERCENT);
    NoColonNoDouble(ip, [PERCENT] + zone);
    assert ip + [PERCENT] + zone == ip + ([PERCENT] + zone);
    hide Split, Includes, Fold, Groups;
  }

  /** A zone behind the address makes no difference to its key. */
  lemma ZoneIsIgnored(a: Address, zone: Text)
    requires Valid(a) && !a.Dotted? && COLON !in zone
    ensures IpKey(Some(Written(a) + (Ascii("%") + zone))) == IpKey(Some(Written(a)))
  {
    var ip := Written(a);
    assert Ascii("%") == [PERCENT];
    WrittenIsPlain(a);
    hide Written, Valid, KeyGroups;
    KeyWithZone(ip, zone);
    assert COLON in ip + ([PERCENT] + zone);
  }
}
