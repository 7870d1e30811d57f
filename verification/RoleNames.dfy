/** Role names: unique regardless of case, and the name a copy gets. */
module RoleNames {
  import opened JsText
  import opened Collections
  import opened Numerals

  /** Trimming would not change the name. */
  predicate IsTrim(name: Text) {
    name == [] || (!IsTrimmed(name[0]) && !IsTrimmed(name[|name| - 1]))
  }

  lemma TrimGivesTrim(name: Text)
    ensures IsTrim(Trim(name))
  {
    var s := TrimStart(name);
    var r := TrimEnd(s);
    if r != [] { assert r[0] == s[0]; }
  }

  lemma TrimKeepsTrim(name: Text)
    requires IsTrim(name)
    ensures Trim(name) == name
  {
  }

  // ----- copy names

  const COPY: Text := [32, 40, 99, 111, 112, 121] // " (copy"
  const CLOSE: CodeUnit := 41
  const BARE_COPY: Text := [40, 99, 111, 112, 121, 41] // "(copy)"

  /** `name (copy)`, `name (copy 2)`, `name (copy 3)`, ... */
  function Candidate(name: Text, n: nat): Text {
    name + CopySuffix(n)
  }

  function CopySuffix(n: nat): Text {
    if n == 1 then COPY + [CLOSE] else COPY + [SPACE] + Numeral(n, 10) + [CLOSE]
  }

  /** `name (copy)` first, then `name (copy 2)` and so on with the number in decimal. */
  lemma CandidateTexts(name: Text, n: nat)
    ensures Candidate(name, 1) == name + Ascii(" (copy)")
    ensures n != 1 ==> Candidate(name, n) == name + (Ascii(" (copy ") + Numeral(n, 10) + Ascii(")"))
    ensures BARE_COPY == Ascii("(copy)")
  {
    assert COPY + [CLOSE] == Ascii(" (copy)");
    assert COPY + [SPACE] == Ascii(" (copy ") && [CLOSE] == Ascii(")");
  }

  /** Different numbers give names that differ even after folding. */
  lemma CandidatesDiffer(name: Text, m: nat, n: nat)
    requires m != n
    ensures Fold(Candidate(name, m)) != Fold(Candidate(name, n))
  {
    SuffixesDiffer(m, n);
    FoldConcat(name, CopySuffix(m));
    FoldConcat(name, CopySuffix(n));
    assert Fold(CopySuffix(m)) == Fold(Candidate(name, m))[|name|..];
    assert Fold(CopySuffix(n)) == Fold(Candidate(name, n))[|name|..];
  }

  lemma SuffixesDiffer(m: nat, n: nat)
    requires m != n
    ensures Fold(CopySuffix(m)) != Fold(CopySuffix(n))
  {
    if m == 1 {
      SeventhUnit(n);
    } else if n == 1 {
      SeventhUnit(m);
    } else {
      NumeralReads(m, 10);
      NumeralReads(n, 10);
      NumberedDiffer(m, n);
    }
  }

  lemma SeventhUnit(n: nat)
    requires n != 1
    ensures |Fold(CopySuffix(n))| > 6 && |Fold(CopySuffix(1))| > 6 && Fold(CopySuffix(n))[6] != Fold(CopySuffix(1))[6]
  {
    assert CopySuffix(n)[6] == SPACE && CopySuffix(1)[6] == CLOSE;
  }

  lemma FoldedNumber(x: Text)
    requires forall i :: 0 <= i < |x| ==> 48 <= x[i] <= 57
    ensures var s := Fold(COPY + [SPACE] + x + [CLOSE]); |s| == |x| + 8 && s[7..|x| + 7] == x
  {
  }

  lemma NumberedDiffer(m: nat, n: nat)
    requires m != 1 && n != 1 && Numeral(m, 10) != Numeral(n, 10)
    ensures Fold(CopySuffix(m)) != Fold(CopySuffix(n))
  {
    FoldedNumber(Numeral(m, 10));
    FoldedNumber(Numeral(n, 10));
  }

  /** Names taken so far, folded. */
  ghost function FoldedNames(names: set<Text>): set<Text> {
    set name | name in names :: Fold(name)
  }

  predicate NameTaken(names: set<Text>, name: Text) {
    exists other :: other in names && Fold(other) == Fold(name)
  }

  function FoldedCandidate(name: Text, n: nat): Text {
    Fold(Candidate(name, n))
  }

  /** A numbering without repeats gives k values to k numbers. */
  lemma {:induction false} ImageCount<T>(f: nat -> T, k: nat)
    requires forall m: nat, n: nat :: m < n ==> f(m) != f(n)
    ensures |set n: nat | n < k :: f(n)| == k
  {
    if k == 0 {
      assert (set n: nat | n < k :: f(n)) == {};
    } else {
      ImageCount(f, k - 1);
      assert (set n: nat | n < k :: f(n)) == (set n: nat | n < k - 1 :: f(n)) + {f(k - 1)};
    }
  }

  lemma {:induction false} FoldedCount(names: set<Text>)
    ensures |FoldedNames(names)| <= |names|
    decreases |names|
  {
    if names != {} {
      var name :| name in names;
      FoldedCount(names - {name});
      assert FoldedNames(names) == FoldedNames(names - {name}) + {Fold(name)};
    }
  }

  /** Pigeonhole: k taken candidates need k names. */
  lemma TakenCandidatesNeedNames(names: set<Text>, name: Text, k: nat)
    requires forall n :: 1 <= n <= k ==> NameTaken(names, Candidate(name, n))
    ensures k <= |names|
  {
    var f := (n: nat) => FoldedCandidate(name, n + 1);
    forall m: nat, n: nat | m < n
      ensures f(m) != f(n)
    {
      CandidatesDiffer(name, m + 1, n + 1);
    }
    ImageCount(f, k);
    FoldedCount(names);
    var taken := set n: nat | n < k :: f(n);
    forall c | c in taken
      ensures c in FoldedNames(names)
    {
      var n: nat :| n < k && c == f(n);
      assert NameTaken(names, Candidate(name, n + 1));
    }
    SubsetCount(taken, FoldedNames(names));
  }

  /** The first free candidate, found within one probe more than there are names. */
  ghost predicate IsCopyNumber(names: set<Text>, name: Text, n: nat) {
    && 1 <= n <= |names| + 1
    && !NameTaken(names, Candidate(name, n))
    && forall m :: 1 <= m < n ==> NameTaken(names, Candidate(name, m))
  }

  function FirstFree(names: set<Text>, name: Text, n: nat): (r: nat)
    requires 1 <= n && forall m :: 1 <= m < n ==> NameTaken(names, Candidate(name, m))
    ensures IsCopyNumber(names, name, r)
    decreases |names| + 1 - n
  {
    TakenCandidatesNeedNames(names, name, n - 1);
    if !NameTaken(names, Candidate(name, n)) then n
    else
      TakenCandidatesNeedNames(names, name, n);
      FirstFree(names, name, n + 1)
  }

  /** `copyName`: probes candidates until one is free. */
  method CopyName(names: set<Text>, name: Text) returns (candidate: Text)
    ensures candidate == Candidate(name, FirstFree(names, name, 1))
  {
    var n := 1;
    while true
      invariant 1 <= n
      invariant forall m :: 1 <= m < n ==> NameTaken(names, Candidate(name, m))
      invariant FirstFree(names, name, 1) == FirstFree(names, name, n)
      decreases |names| + 1 - n
    {
      candidate := Candidate(name, n);
      if !NameTaken(names, candidate) { return; }
      TakenCandidatesNeedNames(names, name, n);
      n := n + 1;
    }
  }

  /**
   * `duplicate` without a name trims the candidate before it asks for a free name. With stored names
   * trimmed, that name passes exactly when the source name is not empty or "(copy)" is free.
   */
  lemma CopyNamePasses(names: set<Text>, name: Text, n: nat)
    requires IsCopyNumber(names, name, n)
    requires IsTrim(name) && forall other :: other in names ==> IsTrim(other)
    ensures !NameTaken(names, Trim(Candidate(name, n))) <==> name != [] || !NameTaken(names, BARE_COPY)
  {
    var candidate := Candidate(name, n);
    assert candidate[|candidate| - 1] == CLOSE;
    if name != [] {
      assert candidate[0] == name[0];
      TrimKeepsTrim(candidate);
    } else {
      // A stored name never starts with the space of " (copy)", so the first probe is free.
      forall other | other in names
        ensures Fold(other) != Fold(Candidate([], 1))
      {
        assert Fold(Candidate([], 1))[0] == SPACE;
        assert other != [] ==> Fold(other)[0] != SPACE;
      }
      assert n == 1;
      assert candidate == [SPACE] + BARE_COPY;
      TrimSpaced(BARE_COPY);
    }
  }

  lemma TrimSpaced(s: Text)
    requires s != [] && IsTrim(s)
    ensures Trim([SPACE] + s) == s
  {
    assert ([SPACE] + s)[1..] == s;
    assert TrimStart([SPACE] + s) == s;
  }

  lemma LongNameIsFree(names: set<Text>, name: Text)
    requires forall other :: other in names ==> |other| < |name|
    ensures !NameTaken(names, name)
  {
    assert forall other :: other in names ==> |Fold(other)| < |Fold(name)|;
  }

  /** The empty source name really fails: next to a role named "(copy)" its copy is refused. */
  lemma EmptyNameCopyFails()
    ensures var names := {[], BARE_COPY};
            IsCopyNumber(names, [], 1) && NameTaken(names, Trim(Candidate([], 1)))
  {
    var names := {[], BARE_COPY};
    assert Candidate([], 1) == [SPACE] + BARE_COPY;
    TrimSpaced(BARE_COPY);
    hide Trim, Fold, IsTrimmed, Candidate;
    LongNameIsFree(names, Candidate([], 1));
    assert |names| == 2;
  }
}
