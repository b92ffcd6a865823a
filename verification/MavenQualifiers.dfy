/** The qualifiers of the Maven comparator, on version texts (pipeline/maven_version.go). */
module MavenQualifiers {
  import opened GoStrings
  import opened MavenVersion
  import opened MavenOrder

  /** The known qualifiers from the lowest to the highest; the empty one is the release. */
  const KNOWN: seq<string> := ["alpha", "beta", "milestone", "rc", "snapshot", "", "sp"]

  /** Other words for one of them. */
  const ALIASES: seq<(string, string)> := [("a", "alpha"), ("b", "beta"), ("m", "milestone"), ("cr", "rc")]

  const RELEASES: seq<string> := ["ga", "final", "release"]

  /** Letters that are none of those words, in any case. */
  predicate IsUnknown(qual: string) {
    && qual != "" && IsLetters(qual)
    && ToLower(qual) !in KNOWN && ToLower(qual) !in RELEASES && forall a :: a in ALIASES ==> ToLower(qual) != a.0
  }

  /** The numbers with the qualifier behind them. */
  function Qualified(nums: seq<string>, qual: string): string
    requires |nums| >= 1
  {
    Join(nums, '.') + if qual == "" then "" else "-" + qual
  }

  lemma Lowered(q: string)
    requires forall i :: 0 <= i < |q| ==> IsLower(q[i])
    ensures ToLower(q) == q && IsLetters(q)
  {
    assert ToLower(q) == q;
  }

  lemma KnownAreLower(i: nat)
    requires i < |KNOWN|
    ensures ToLower(KNOWN[i]) == KNOWN[i] && IsLetters(KNOWN[i])
  {
    Lowered(KNOWN[i]);
  }

  lemma KnownOrder(i: nat)
    requires i < |KNOWN|
    ensures QualifierOrder(NormalizeQualifier(KNOWN[i])) == i
  {
  }

  lemma UnknownOrder(qual: string)
    requires IsUnknown(qual)
    ensures NormalizeQualifier(ToLower(qual)) == ToLower(qual) && QualifierOrder(ToLower(qual)) == UNKNOWN
  {
    hide ToLower, IsLetters;
    NotKnown(ToLower(qual));
    NoAlias(ToLower(qual));
    NoRelease(ToLower(qual));
  }

  lemma NotKnown(q: string)
    requires q !in KNOWN
    ensures q != "alpha" && q != "beta" && q != "milestone" && q != "rc" && q != "snapshot" && q != "" && q != "sp"
  {
    assert KNOWN[0] in KNOWN && KNOWN[1] in KNOWN && KNOWN[2] in KNOWN && KNOWN[3] in KNOWN && KNOWN[4] in KNOWN;
    assert KNOWN[5] in KNOWN && KNOWN[6] in KNOWN;
  }

  lemma NoAlias(q: string)
    requires forall a :: a in ALIASES ==> q != a.0
    ensures q != "a" && q != "b" && q != "m" && q != "cr"
  {
    assert ALIASES[0] in ALIASES && ALIASES[1] in ALIASES && ALIASES[2] in ALIASES && ALIASES[3] in ALIASES;
  }

  lemma NoRelease(q: string)
    requires q !in RELEASES
    ensures q != "ga" && q != "final" && q != "release"
  {
    assert RELEASES[0] in RELEASES && RELEASES[1] in RELEASES && RELEASES[2] in RELEASES;
  }

  /** Two texts of one set of numbers compare as their qualifiers do. */
  lemma ComparesQualifiers(nums: seq<string>, q: string, r: string)
    requires WellFormed(Plain(nums, q, "")) && WellFormed(Plain(nums, r, ""))
    ensures CompareVersions(Qualified(nums, q), Qualified(nums, r)) ==
            Some(CompareQualifier(NormalizeQualifier(ToLower(q)), NormalizeQualifier(ToLower(r))))
  {
    hide CompareVersions, CompareQualifier, NormalizeQualifier, QualifierOrder, Lexicographic, Decimal;
    FixedArityOrder(Plain(nums, q, ""), Plain(nums, r, ""));
    SameNumbers(nums, 0);
    QualifiedText(nums, q);
    QualifiedText(nums, r);
  }

  lemma QualifiedText(nums: seq<string>, q: string)
    requires WellFormed(Plain(nums, q, ""))
    ensures Text(Plain(nums, q, "")) == Qualified(nums, q)
  {
    hide Join, QualifierOrder;
    assert "-" + q + "" == "-" + q;
  }

  lemma {:induction false} SameNumbers(nums: seq<string>, i: nat)
    requires forall k :: 0 <= k < |nums| ==> AllDigits(nums[k])
    ensures Lexicographic(nums, nums, i) == 0
    decreases |nums| - i
  {
    hide Decimal;
    if i < |nums| {
      SameNumbers(nums, i + 1);
    }
  }

  lemma KnownPlain(nums: seq<string>, i: nat)
    requires IsNumbers(nums) && i < |KNOWN|
    ensures WellFormed(Plain(nums, KNOWN[i], ""))
    ensures QualifierOrder(NormalizeQualifier(ToLower(KNOWN[i]))) == i
  {
    hide QualifierOrder, NormalizeQualifier, ToLower;
    KnownAreLower(i);
    KnownOrder(i);
  }

  lemma UnknownPlain(nums: seq<string>, qual: string)
    requires IsNumbers(nums) && IsUnknown(qual)
    ensures WellFormed(Plain(nums, qual, ""))
  {
    hide QualifierOrder, NormalizeQualifier, ToLower;
    UnknownOrder(qual);
  }

  /** n-alpha < n-beta < n-milestone < n-rc < n-snapshot < n < n-sp. */
  lemma KnownInOrder(nums: seq<string>, i: nat, j: nat)
    requires IsNumbers(nums) && i < j < |KNOWN|
    ensures Below(Qualified(nums, KNOWN[i]), Qualified(nums, KNOWN[j]))
  {
    hide CompareVersions, QualifierOrder, NormalizeQualifier, ToLower, Qualified;
    KnownPlain(nums, i);
    KnownPlain(nums, j);
    ComparesQualifiers(nums, KNOWN[i], KNOWN[j]);
  }

  /** Every known qualifier is below every other. */
  lemma UnknownAbove(nums: seq<string>, i: nat, qual: string)
    requires IsNumbers(nums) && i < |KNOWN| && IsUnknown(qual)
    ensures Below(Qualified(nums, KNOWN[i]), Qualified(nums, qual))
  {
    hide CompareVersions, QualifierOrder, NormalizeQualifier, ToLower, Qualified;
    KnownPlain(nums, i);
    UnknownPlain(nums, qual);
    UnknownOrder(qual);
    ComparesQualifiers(nums, KNOWN[i], qual);
  }

  /** Unknown qualifiers come in the order of their lower-case text. */
  lemma UnknownByText(nums: seq<string>, q: string, r: string)
    requires IsNumbers(nums) && IsUnknown(q) && IsUnknown(r)
    ensures Below(Qualified(nums, q), Qualified(nums, r)) <==> TextBefore(ToLower(q), ToLower(r))
  {
    hide CompareVersions, QualifierOrder, NormalizeQualifier, ToLower, Qualified, TextBefore;
    UnknownPlain(nums, q);
    UnknownPlain(nums, r);
    UnknownOrder(q);
    UnknownOrder(r);
    ComparesQualifiers(nums, q, r);
    TextOrder(ToLower(q), ToLower(r));
  }

  /** n-a, n-b, n-m and n-cr are n-alpha, n-beta, n-milestone and n-rc. */
  lemma AliasesAreEqual(nums: seq<string>, i: nat)
    requires IsNumbers(nums) && i < |ALIASES|
    ensures CompareVersions(Qualified(nums, ALIASES[i].0), Qualified(nums, ALIASES[i].1)) == Some(0)
  {
    hide CompareVersions, Qualified, ToLower;
    Lowered(ALIASES[i].0);
    Lowered(ALIASES[i].1);
    ComparesQualifiers(nums, ALIASES[i].0, ALIASES[i].1);
  }

  /** n-ga, n-final and n-release, in any case, are n. */
  lemma ReleasesAreEqual(nums: seq<string>, qual: string)
    requires IsNumbers(nums) && IsLetters(qual) && ToLower(qual) in RELEASES
    ensures CompareVersions(Qualified(nums, qual), Join(nums, '.')) == Some(0)
  {
    hide Parse, CompareItem, Join, ToLower;
    ReleaseParses(nums, qual);
    var n := Plain(nums, "", "");
    TextGrammar(n);
    ParsePlain(n);
    assert Text(n) == Join(nums, '.') by { assert Join(nums, '.') + "" == Join(nums, '.'); }
    ItemAntisymmetric(Parse(Join(nums, '.')), Parse(Join(nums, '.')));
  }

  /** A release word parses to nothing at all. */
  lemma ReleaseParses(nums: seq<string>, qual: string)
    requires IsNumbers(nums) && IsLetters(qual) && ToLower(qual) in RELEASES
    ensures GrammarOK(Qualified(nums, qual)) && Parse(Qualified(nums, qual)) == Parse(Join(nums, '.'))
  {
    hide Scan, Decimal, Join, ToLower, NormalizeQualifier, Assemble, Finish, GrammarOK;
    QualifiedLower(nums, qual);
    ScansAlike(nums, qual);
  }

  lemma QualifiedLower(nums: seq<string>, qual: string)
    requires IsNumbers(nums) && IsLetters(qual) && qual != ""
    ensures GrammarOK(Qualified(nums, qual))
            && ToLower(Qualified(nums, qual)) == Join(nums, '.') + ("-" + ToLower(qual))
    ensures ToLower(Join(nums, '.')) == Join(nums, '.')
  {
    hide Join, ToLower;
    JoinDigits(nums);
    DigitsLower(Join(nums, '.'));
    LettersLower(qual);
    DashLower();
    LowerAppend("-", qual);
    LowerAppend(Join(nums, '.'), "-" + qual);
  }

  lemma ScansAlike(nums: seq<string>, qual: string)
    requires IsNumbers(nums) && IsLetters(qual) && ToLower(qual) in RELEASES
    ensures Assemble(Finish(Scan(Join(nums, '.') + ("-" + ToLower(qual)), START))) ==
            Assemble(Finish(Scan(Join(nums, '.'), START)))
  {
    hide Scan, Decimal, Join, ToLower, NormalizeQualifier, Assemble, Ints;
    var lower, ints := ToLower(qual), Ints(nums);
    NumbersScan(nums);
    ReleaseNormalizes(lower);
    WordScans(nums, qual);
    var q := StrItem("");
    assert [] + [q] == [q];
    assert Finish(ScanState([ints, []], false, lower)) == [ints, [] + [q]];
    ReleaseVanishes(ints, q);
    AssembleOne(ints);
  }

  lemma NumbersScan(nums: seq<string>)
    requires IsNumbers(nums)
    ensures var st := Scan(Join(nums, '.'), START);
            && st == ScanState([Ints(nums[..|nums| - 1])], true, nums[|nums| - 1])
            && Finish(st) == [Ints(nums)]
  {
    hide Scan, Decimal, Join, Ints;
    ScanNumbers(nums, [], false);
    assert [] + Ints(nums[..|nums| - 1]) == Ints(nums[..|nums| - 1]);
    IntsSnoc(nums);
  }

  lemma WordScans(nums: seq<string>, qual: string)
    requires IsNumbers(nums) && IsLetters(qual) && qual != ""
    ensures Scan(Join(nums, '.') + ("-" + ToLower(qual)), START) == ScanState([Ints(nums), []], false, ToLower(qual))
  {
    hide Scan, Decimal, Join, ToLower, NormalizeQualifier, Ints;
    var head, lower, last := Join(nums, '.'), ToLower(qual), nums[|nums| - 1];
    NumbersScan(nums);
    ScanAppend(head, "-" + lower, START);
    ScanSuffix(qual, "", Ints(nums[..|nums| - 1]), last);
    assert "-" + lower + "" == "-" + lower;
    IntsSnoc(nums);
  }

  lemma DashLower()
    ensures ToLower("-") == "-"
  {
  }

  lemma AssembleOne(a: seq<Item>)
    ensures Assemble([a]) == Normalize(a)
  {
  }

  lemma ReleaseNormalizes(lower: string)
    requires lower in RELEASES
    ensures lower != "" && NormalizeQualifier(lower) == ""
  {
  }

  lemma ReleaseVanishes(ints: seq<Item>, q: Item)
    requires q == StrItem("")
    ensures Assemble([ints, [q]]) == Normalize(ints)
  {
    hide Assemble, Normalize;
    AssembleTwo(ints, [q]);
    assert IsNull(q) by { Orders(); }
    assert [] + [q] == [q];
    NullGoes([], q);
    EmptyStays();
    NullGoes(ints, ListItem([]));
  }

  // ----- what a version is written in -----

  const SEPARATORS := "-_+"

  lemma SeparatorsAre(c: char)
    ensures IsSeparator(c) <==> c in SEPARATORS
  {
    assert SEPARATORS[0] == '-' && SEPARATORS[1] == '_' && SEPARATORS[2] == '+';
  }

  /** A version is compared exactly when it is made of letters, digits, dots and separators, at least one. */
  lemma GrammarExactly(v: string)
    ensures GrammarOK(v) <==>
            v != "" && forall i :: 0 <= i < |v| ==>
                         'a' <= v[i] <= 'z' || 'A' <= v[i] <= 'Z' || '0' <= v[i] <= '9' || v[i] == '.'
                           || v[i] in SEPARATORS
  {
    forall c ensures IsSeparator(c) <==> c in SEPARATORS { SeparatorsAre(c); }
  }

  /** The same but for the case of its letters and for which separators it has. */
  predicate Alike(a: string, b: string) {
    |a| == |b| && forall i :: 0 <= i < |a| ==>
      LowerChar(a[i]) == LowerChar(b[i]) || (a[i] in SEPARATORS && b[i] in SEPARATORS)
  }

  lemma {:induction false} AlikeScan(a: string, b: string, st: ScanState)
    requires Scanning(st) && |a| == |b|
    requires forall i :: 0 <= i < |a| ==> a[i] == b[i] || (IsSeparator(a[i]) && IsSeparator(b[i]))
    ensures Scan(a, st) == Scan(b, st)
  {
    if a != "" {
      assert Step(a[0], st) == Step(b[0], st);
      AlikeScan(a[1..], b[1..], Step(a[0], st));
    }
  }

  /** Such versions parse alike. */
  lemma AlikeParse(a: string, b: string)
    requires Alike(a, b)
    ensures Parse(a) == Parse(b)
  {
    hide Scan, Assemble, Finish, LowerChar;
    forall c | c in SEPARATORS ensures IsSeparator(c) && LowerChar(c) == c { SeparatorsAre(c); SeparatorStays(c); }
    AlikeScan(ToLower(a), ToLower(b), START);
  }

  lemma SeparatorStays(c: char)
    requires IsSeparator(c)
    ensures LowerChar(c) == c
  {
  }
}
