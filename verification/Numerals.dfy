/** Positional numerals: reading, writing, and cutting them. */
module Numerals {
  import opened JsText

  function Pow2(n: nat): (r: nat)
    ensures r > 0
  {
    if n == 0 then 1 else 2 * Pow2(n - 1)
  }

  /** The digit a code unit stands for: 0-9, a-f or A-F; 16 when it is no digit. */
  function DigitOf(c: CodeUnit): nat {
    if 48 <= c <= 57 then c - 48
    else if 97 <= c <= 102 then c - 87
    else if 65 <= c <= 70 then c - 55
    else 16
  }

  /** The unit is that hex digit, in either case. */
  predicate SpellsDigit(c: CodeUnit, digit: nat)
    requires digit < 16
  {
    c == Ascii("0123456789abcdef")[digit] || c == Ascii("0123456789ABCDEF")[digit]
  }

  lemma DigitIsSpelled(c: CodeUnit, digit: nat)
    requires digit < 16
    ensures DigitOf(c) == digit <==> SpellsDigit(c, digit)
  {
  }

  predicate AllDigits(s: Text, base: nat) {
    forall i :: 0 <= i < |s| ==> DigitOf(s[i]) < base
  }

  /** Digits in lower case: one spelling for each digit. */
  predicate LowerDigits(s: Text, base: nat) {
    AllDigits(s, base) && forall i :: 0 <= i < |s| ==> !(65 <= s[i] <= 70)
  }

  function Value(s: Text, base: nat): nat {
    if s == [] then 0 else base * Value(s[..|s| - 1], base) + DigitOf(s[|s| - 1])
  }

  /** `n.toString(base)` for the bases whose digits are 0 to 9. */
  function Numeral(n: nat, base: nat): (s: Text)
    requires 2 <= base <= 10
    ensures s != [] && forall i :: 0 <= i < |s| ==> 48 <= s[i] < 48 + base
  {
    if n < base then [48 + n] else Numeral(n / base, base) + [48 + n % base]
  }

  lemma ValueAppend(s: Text, c: CodeUnit, base: nat)
    ensures Value(s + [c], base) == base * Value(s, base) + DigitOf(c)
  {
    assert (s + [c])[..|s|] == s;
  }

  lemma DivMod(n: nat, d: nat)
    requires d > 0
    ensures d * (n / d) + n % d == n
  {
  }

  lemma {:induction false} NumeralReads(n: nat, base: nat)
    requires 2 <= base <= 10
    ensures Value(Numeral(n, base), base) == n
  {
    if n < base {
      NumeralDigit(n, base);
    } else {
      NumeralReads(n / base, base);
      NumeralLast(n, base);
      hide Value, Numeral;
      ValueAppend(Numeral(n / base, base), 48 + n % base, base);
      DivMod(n, base);
    }
  }

  lemma NumeralDigit(n: nat, base: nat)
    requires 2 <= base <= 10 && n < base
    ensures Value(Numeral(n, base), base) == n
  {
    var digit: Text := [48 + n];
    assert digit[..0] == [];
    assert Value(digit[..0], base) == 0;
  }

  lemma NumeralLast(n: nat, base: nat)
    requires 2 <= base <= 10 && n >= base
    ensures Numeral(n, base) == Numeral(n / base, base) + [48 + n % base] && DigitOf(48 + n % base) == n % base
  {
  }

  lemma {:induction false} BinaryLength(n: nat, width: nat)
    requires n < Pow2(width) && width >= 1
    ensures |Numeral(n, 2)| <= width
  {
    if n >= 2 {
      BinaryLength(n / 2, width - 1);
    }
  }

  lemma {:induction false} SameLengthInjective(a: Text, b: Text, base: nat)
    requires |a| == |b| && base <= 16 && Value(a, base) == Value(b, base)
    requires LowerDigits(a, base) && LowerDigits(b, base)
    ensures a == b
  {
    if a != [] {
      var n := |a| - 1;
      LastDigitAgrees(a, b, base);
      SameLengthInjective(a[..n], b[..n], base);
      assert a == a[..n] + [a[n]] && b == b[..n] + [b[n]];
    }
  }

  lemma LastDigitAgrees(a: Text, b: Text, base: nat)
    requires |a| == |b| > 0 && base <= 16 && Value(a, base) == Value(b, base)
    requires LowerDigits(a, base) && LowerDigits(b, base)
    ensures Value(a[..|a| - 1], base) == Value(b[..|b| - 1], base) && a[|a| - 1] == b[|b| - 1]
  {
    var n := |a| - 1;
    QuotientsAgree(base, Value(a[..n], base), DigitOf(a[n]), Value(b[..n], base), DigitOf(b[n]));
  }

  lemma QuotientsAgree(d: nat, q: nat, r: nat, p: nat, t: nat)
    requires d * q + r == d * p + t && r < d && t < d
    ensures q == p && r == t
  {
    if q < p { Grow(d, q, p); } else if p < q { Grow(d, p, q); }
  }

  lemma Grow(d: nat, q: nat, p: nat)
    requires q < p
    ensures d * q + d <= d * p
  {
    assert d * p == d * q + d * (p - q);
    assert d * (p - q) == d + d * (p - q - 1);
  }

  lemma DivisionIsUnique(d: nat, q: nat, r: nat)
    requires r < d
    ensures (d * q + r) / d == q
  {
    var n := d * q + r;
    QuotientsAgree(d, q, r, n / d, n % d);
  }

  lemma {:induction false} BinaryBound(s: Text)
    requires AllDigits(s, 2)
    ensures Value(s, 2) < Pow2(|s|)
  {
    if s != [] { BinaryBound(s[..|s| - 1]); }
  }

  /** Binary digits written one after the other: the first part counts 2^|b| times. */
  lemma {:induction false} BinaryConcat(a: Text, b: Text)
    ensures Value(a + b, 2) == Pow2(|b|) * Value(a, 2) + Value(b, 2)
  {
    if b == [] {
      assert a + b == a;
    } else {
      var n := |b| - 1;
      BinaryConcat(a, b[..n]);
      assert (a + b)[..|a + b| - 1] == a + b[..n];
      Doubled(Pow2(n), Value(a, 2));
    }
  }

  lemma Doubled(p: nat, v: nat)
    ensures (2 * p) * v == 2 * (p * v)
  {
  }

  /** Equal prefixes of binary digits are equal quotients. */
  lemma PrefixIsQuotient(a: Text, b: Text, p: nat)
    requires |a| == |b| && p <= |a|
    requires LowerDigits(a, 2) && LowerDigits(b, 2)
    ensures a[..p] == b[..p] <==> QuotientOf(Value(a, 2), |a| - p) == QuotientOf(Value(b, 2), |a| - p)
  {
    PrefixValue(a, p);
    PrefixValue(b, p);
    if Value(a[..p], 2) == Value(b[..p], 2) {
      SameLengthInjective(a[..p], b[..p], 2);
    }
  }

  /** n without its low k binary digits. */
  function QuotientOf(n: nat, k: nat): int {
    n / Pow2(k)
  }

  lemma PrefixValue(a: Text, p: nat)
    requires p <= |a| && AllDigits(a, 2)
    ensures QuotientOf(Value(a, 2), |a| - p) == Value(a[..p], 2)
  {
    hide Value, Pow2;
    assert a == a[..p] + a[p..];
    BinaryConcat(a[..p], a[p..]);
    BinaryBound(a[p..]);
    DivisionIsUnique(Pow2(|a| - p), Value(a[..p], 2), Value(a[p..], 2));
  }
}
