/** Under each scheme whose parser is modelled, a version past every bound it reads that none of the others reads. */
module SchemeTops {
  import opened GoStrings
  import opened AffectedRange
  import GoToolchain
  import MavenOrder
  import MavenVersion
  import NpmVersion
  import NugetInterval
  import NugetVersion
  import Prerelease

  const SCHEMES: seq<string> := ["", "gomod", "maven", "npm", "pypi", "nuget", "go-toolchain"]

  /** recognizedVersionSchemes. */
  predicate Recognized(scheme: string) {
    scheme in SCHEMES
  }

  /** Two names of one comparator. */
  predicate SameAxis(s: string, t: string) {
    s == t || (s in ["", "gomod"] && t in ["", "gomod"])
  }

  /** A bound the scheme's own parser reads; the two comparators given from outside read any. */
  predicate Readable(scheme: string, bound: string) {
    && bound != ""
    && (scheme == "maven" ==> MavenVersion.GrammarOK(bound))
    && (scheme == "npm" ==> NpmVersion.Parse(bound).Some?)
    && (scheme == "nuget" ==> NugetVersion.Parse(bound).Some? && !NugetVersion.IsFloating(bound))
    && (scheme == "go-toolchain" ==> GoToolchain.ParseBound(bound).Some?)
  }

  /** The scheme's parser refuses the version; the two comparators given from outside refuse it too. */
  ghost predicate Unread(scheme: string, ver: string, o: Comparators) {
    && (scheme == "maven" ==> !MavenVersion.GrammarOK(ver))
    && (scheme == "npm" ==> NpmVersion.Parse(ver).None?)
    && (scheme == "nuget" ==> NugetVersion.Parse(ver).None?)
    && (scheme == "go-toolchain" ==> GoToolchain.ParseBound(ver).None?)
    && (scheme == "pypi" ==> forall b :: o.pypi(ver, b) == None)
    && (scheme == "" || scheme == "gomod" ==> forall b :: o.gomod(ver, b) == None)
  }

  /** What a scheme does not read it proves nothing about. */
  lemma UnreadProvesNothing(ver: string, r: Range, o: Comparators)
    requires Recognized(r.scheme) && Unread(r.scheme, ver, o)
    ensures OutsideRange(ver, r, o) != Some(true)
  {
    hide MavenVersion.GrammarOK, NpmVersion.Parse, NugetVersion.Parse, GoToolchain.ParseBound, MavenVersion.CompareItem,
         NpmVersion.SplitUnion, NpmVersion.Compare, NugetVersion.Compare, GoToolchain.Compare;
  }

  // ----- the texts -----

  const DIGITS: seq<string> := [Itoa(MAX_INT64), Itoa(MAX_INT64), Itoa(MAX_INT64)]
  const SMALL: seq<string> := [Itoa(NpmVersion.SEMVER_MAX), Itoa(NpmVersion.SEMVER_MAX), Itoa(NpmVersion.SEMVER_MAX)]

  function GoTop(): string {
    " " + GoToolchain.Format(GoToolchain.Version(MAX_INT64, MAX_INT64, MAX_INT64, None))
  }

  function NpmTop(): string {
    " v" + Join(SMALL, '.')
  }

  function NugetTop(): string {
    " " + Join(DIGITS + [Itoa(MAX_INT64)], '.')
  }

  lemma TrimBlankBefore(t: string, blank: char -> bool)
    requires blank(' ') && t != "" && !blank(t[0]) && !blank(t[|t| - 1])
    ensures TrimFunc(" " + t, blank) == t
  {
    hide TrimRight;
    assert (" " + t)[1..] == t;
    assert TrimLeft(" " + t, blank) == t;
    TrimNothing(t, blank);
    assert TrimLeft(t, blank) == t;
  }

  /** A letter before dotted numbers stays with the first of them. */
  lemma PrefixedSplit(letters: string, nums: seq<string>)
    requires |nums| >= 1 && '.' !in letters && forall i :: 0 <= i < |nums| ==> AllDigits(nums[i])
    ensures Split(letters + Join(nums, '.'), '.') == [letters + nums[0]] + nums[1..]
  {
    hide Split, Join, AllDigits;
    PrefixedJoin(letters, nums);
    NoDots(letters, nums);
    SplitJoin([letters + nums[0]] + nums[1..], '.');
  }

  lemma PrefixedJoin(letters: string, nums: seq<string>)
    requires |nums| >= 1
    ensures Join([letters + nums[0]] + nums[1..], '.') == letters + Join(nums, '.')
  {
    hide Join;
    var parts := [letters + nums[0]] + nums[1..];
    assert parts[0] == letters + nums[0] && parts[1..] == nums[1..];
    JoinCons(parts);
    JoinCons(nums);
    Regroup(letters, nums[0], if |nums| > 1 then Join(nums[1..], '.') else "");
  }

  lemma JoinCons(parts: seq<string>)
    requires |parts| >= 1
    ensures Join(parts, '.') == if |parts| == 1 then parts[0] else parts[0] + ['.'] + Join(parts[1..], '.')
  {
  }

  lemma Regroup(a: string, b: string, c: string)
    ensures (a + b) + ['.'] + c == a + (b + ['.'] + c)
  {
  }

  lemma NoDots(letters: string, nums: seq<string>)
    requires |nums| >= 1 && '.' !in letters && forall i :: 0 <= i < |nums| ==> AllDigits(nums[i])
    ensures var parts := [letters + nums[0]] + nums[1..]; forall i :: 0 <= i < |parts| ==> '.' !in parts[i]
  {
    var parts := [letters + nums[0]] + nums[1..];
    forall i | 0 <= i < |parts| ensures '.' !in parts[i] {
      if i > 0 { assert parts[i] == nums[i]; }
    }
  }

  lemma {:induction false} DottedChars(nums: seq<string>)
    requires |nums| >= 1 && forall i :: 0 <= i < |nums| ==> nums[i] != "" && AllDigits(nums[i])
    ensures var s := Join(nums, '.');
            && s != "" && IsDigit(s[0]) && IsDigit(s[|s| - 1])
            && forall k :: 0 <= k < |s| ==> IsDigit(s[k]) || s[k] == '.'
  {
    if |nums| > 1 {
      DottedChars(nums[1..]);
    }
  }

  lemma SignedIsNoNumber(letters: string, digits: string)
    requires letters != "" && (IsLower(letters[0]))
    ensures AtoiNonNeg(letters + digits).None?
  {
    assert (letters + digits)[0] == letters[0];
  }

  /** Letters before three dotted numbers leave no NuGet and no toolchain version, and only "v" an npm version. */
  lemma LettersRefused(letters: string, nums: seq<string>)
    requires letters == "v" || letters == "go"
    requires |nums| == 3 && forall i :: 0 <= i < 3 ==> nums[i] != "" && AllDigits(nums[i])
    ensures NugetVersion.Core(letters + Join(nums, '.')).None?
    ensures letters == "go" ==> NpmVersion.ParseCore(letters + Join(nums, '.')).None?
    ensures letters == "v" ==> GoToolchain.ParseTrimmed(letters + Join(nums, '.')).None?
  {
    hide Split, AtoiNonNeg, Join;
    PrefixedSplit(letters, nums);
    SignedIsNoNumber(letters, nums[0]);
    DottedChars(nums);
    var text := letters + Join(nums, '.');
    assert IndexOf(text, '-') < 0 by {
      if IndexOf(text, '-') >= 0 { LettersAndDots(letters, Join(nums, '.')); }
    }
    assert text[0] == letters[0];
  }

  lemma LettersAndDots(letters: string, s: string)
    requires letters == "v" || letters == "go" || letters == ""
    requires forall k :: 0 <= k < |s| ==> IsDigit(s[k]) || s[k] == '.'
    ensures '-' !in letters + s && '+' !in letters + s && '*' !in letters + s
    ensures NugetVersion.AllowedChars(letters + s)
  {
    forall k | 0 <= k < |letters + s| ensures NugetVersion.IsAllowedChar((letters + s)[k]) {
      assert k >= |letters| ==> (letters + s)[k] == s[k - |letters|];
    }
  }

  // ----- each top is read by its own scheme alone -----

  lemma DashFree(s: string)
    requires '-' !in s && '+' !in s
    ensures IndexOf(s, '-') == -1 && IndexOf(s, '+') == -1
  {
  }

  lemma GoTopReads()
    ensures GoToolchain.ParseBound(GoTop()) == Some(GoToolchain.Version(MAX_INT64, MAX_INT64, MAX_INT64, None))
    ensures NpmVersion.Parse(GoTop()).None? && NugetVersion.Parse(GoTop()).None? && !MavenVersion.GrammarOK(GoTop())
  {
    hide Itoa, Split, TrimFunc, GoToolchain.ParseTrimmed, NugetVersion.Core, NpmVersion.ParseCore,
      NugetVersion.AllowedChars, GoToolchain.Format, Join;
    var v := GoToolchain.Version(MAX_INT64, MAX_INT64, MAX_INT64, None);
    var text := GoToolchain.Format(v);
    GoToolchain.FormatEnds(v);
    GoToolchain.FormatRoundTrip(v);
    TrimBlankBefore(text, IsSpace);
    TrimBlankBefore(text, NpmVersion.IsASCIISpace);
    TrimNothing(text, IsSpace);
    FormatIsJoin(v);
    LettersRefused("go", DIGITS);
    DottedChars(DIGITS);
    LettersAndDots("go", Join(DIGITS, '.'));
    DashFree(text);
    assert GoTop()[0] == ' ';
    assert TrimPrefix(text, "v") == text;
  }

  lemma FormatIsJoin(v: GoToolchain.Version)
    requires v.major == v.minor == v.patch == MAX_INT64
    ensures GoToolchain.Format(v) == "go" + Join(DIGITS, '.')
  {
    hide Itoa;
    var d := Itoa(MAX_INT64);
    assert DIGITS[1..] == [d, d] && DIGITS[1..][1..] == [d];
    assert Join(DIGITS[1..], '.') == d + "." + d;
    assert Join(DIGITS, '.') == d + "." + (d + "." + d);
  }

  lemma NpmTopTrimmed()
    ensures var nums := Join(SMALL, '.');
            && TrimSpace(NpmTop()) == "v" + nums && NpmVersion.TrimASCIISpace(NpmTop()) == "v" + nums
            && '-' !in "v" + nums && '+' !in "v" + nums && '-' !in nums && '+' !in nums
            && TrimPrefix("v" + nums, "v") == nums && TrimPrefix("v" + nums, "go") == "v" + nums && nums != ""
  {
    hide Itoa, Join, TrimFunc;
    var nums := Join(SMALL, '.');
    var text := "v" + nums;
    DottedChars(SMALL);
    LettersAndDots("v", nums);
    LettersAndDots("", nums);
    assert "" + nums == nums;
    assert text[0] == 'v' && text[|text| - 1] == nums[|nums| - 1];
    TrimBlankBefore(text, IsSpace);
    TrimBlankBefore(text, NpmVersion.IsASCIISpace);
    assert NpmTop() == " " + text;
  }

  lemma NpmTopReads()
    ensures NpmVersion.Parse(NpmTop()) == Some(NpmVersion.Version(NpmVersion.SEMVER_MAX, NpmVersion.SEMVER_MAX,
                                                                  NpmVersion.SEMVER_MAX, []))
    ensures NugetVersion.Parse(NpmTop()).None? && GoToolchain.ParseBound(NpmTop()).None?
            && !MavenVersion.GrammarOK(NpmTop())
  {
    hide Itoa, Split, TrimFunc, GoToolchain.ParseTrimmed, NugetVersion.Core, NpmVersion.ParseCore,
      NugetVersion.AllowedChars, Join;
    var nums := Join(SMALL, '.');
    NpmTopTrimmed();
    TrimNothing("v" + nums, IsSpace) by { DottedChars(SMALL); }
    LettersRefused("v", SMALL);
    DashFree("v" + nums);
    DashFree(nums);
    SmallParts();
    assert NpmTop()[0] == ' ';
  }

  lemma SmallParts()
    ensures NpmVersion.ParseCore(Join(SMALL, '.')) ==
            Some(NpmVersion.Version(NpmVersion.SEMVER_MAX, NpmVersion.SEMVER_MAX, NpmVersion.SEMVER_MAX, []))
  {
    hide Itoa, Split, Join, NpmVersion.VersionComponent;
    var nums := Join(SMALL, '.');
    DottedChars(SMALL);
    LettersAndDots("", nums);
    assert "" + nums == nums;
    DashFree(nums);
    SplitJoin(SMALL, '.');
    ComponentReads();
  }

  lemma ComponentReads()
    ensures NpmVersion.VersionComponent(Itoa(NpmVersion.SEMVER_MAX)) == Some(NpmVersion.SEMVER_MAX)
  {
    hide Itoa;
    AtoiItoa(NpmVersion.SEMVER_MAX);
  }

  lemma NugetTopReads()
    ensures NugetVersion.Parse(NugetTop()) == Some(NugetVersion.Version(MAX_INT64, MAX_INT64, MAX_INT64, MAX_INT64, []))
    ensures !NugetVersion.IsFloating(NugetTop())
    ensures NpmVersion.Parse(NugetTop()).None? && GoToolchain.ParseBound(NugetTop()).None?
            && !MavenVersion.GrammarOK(NugetTop())
  {
    hide Itoa, Split, TrimFunc, Join, NugetVersion.AllowedChars, NugetVersion.Core, NpmVersion.ParseCore,
      GoToolchain.ParseTrimmed;
    var four := DIGITS + [Itoa(MAX_INT64)];
    var text := Join(four, '.');
    DottedChars(four);
    LettersAndDots("", text);
    assert "" + text == text;
    TrimBlankBefore(text, IsSpace);
    TrimBlankBefore(text, NpmVersion.IsASCIISpace);
    assert NugetTop() == " " + text && NugetTop()[0] == ' ';
    DashFree(text);
    assert TrimPrefix(text, "v") == text;
    FourParts(four);
  }

  lemma FourParts(four: seq<string>)
    requires four == DIGITS + [Itoa(MAX_INT64)]
    ensures var text := Join(four, '.');
            && NugetVersion.Core(text) == Some(NugetVersion.Version(MAX_INT64, MAX_INT64, MAX_INT64, MAX_INT64, []))
            && NpmVersion.ParseCore(text).None? && GoToolchain.ParseTrimmed(text).None?
  {
    hide Itoa, Split, AtoiNonNeg, Join;
    var text := Join(four, '.');
    DottedChars(four);
    LettersAndDots("", text);
    assert "" + text == text;
    DashFree(text);
    assert TrimPrefix(text, "go") == text;
    SplitJoin(four, '.');
    AtoiItoa(MAX_INT64);
    FourSegments(four);
  }

  lemma FourSegments(four: seq<string>)
    requires |four| == 4 && forall i :: 0 <= i < 4 ==> AtoiNonNeg(four[i]) == Some(MAX_INT64)
    ensures NugetVersion.Segments(four) == Some([MAX_INT64, MAX_INT64, MAX_INT64, MAX_INT64])
  {
    hide AtoiNonNeg;
    var m := MAX_INT64;
    assert four[3..][1..] == [] && four[2..][1..] == four[3..] && four[1..][1..] == four[2..];
    SegmentsStep(four[3..], []);
    assert [m] + [] == [m];
    SegmentsStep(four[2..], [m]);
    assert [m] + [m] == [m, m];
    SegmentsStep(four[1..], [m, m]);
    assert [m] + [m, m] == [m, m, m];
    SegmentsStep(four, [m, m, m]);
    assert [m] + [m, m, m] == [m, m, m, m];
  }

  lemma SegmentsStep(parts: seq<string>, rest: seq<nat>)
    requires parts != [] && AtoiNonNeg(parts[0]) == Some(MAX_INT64) && NugetVersion.Segments(parts[1..]) == Some(rest)
    ensures NugetVersion.Segments(parts) == Some([MAX_INT64] + rest)
  {
    hide AtoiNonNeg;
  }

  // ----- each top is past every bound its scheme reads -----

  lemma NpmTopIsPast(bound: string)
    requires NpmVersion.Parse(bound).Some?
    ensures NpmVersion.DisqualifyOutside(NpmTop(), bound) == Some(true)
  {
    hide NpmTop, NpmVersion.Parse, NpmVersion.InRange, NpmVersion.Compare;
    NpmTopReads();
    NpmGreatest(NpmVersion.SEMVER_MAX, NpmVersion.Parse(bound).value);
  }

  lemma NpmGreatest(m: nat, v: NpmVersion.Version)
    requires v.major <= m && v.minor <= m && v.patch <= m
    ensures NpmVersion.Compare(NpmVersion.Version(m, m, m, []), v) >= 0
  {
  }

  lemma NugetTopIsPast(bound: string)
    requires NugetVersion.Parse(bound).Some? && !NugetVersion.IsFloating(bound)
    ensures NugetVersion.OutsideUpper(NugetTop(), bound) == Some(true)
  {
    hide NugetTop, NugetVersion.Parse, NugetVersion.Compare, NugetVersion.IsFloating;
    NugetTopReads();
    NugetInterval.ParsedIsWellFormed(bound);
    NugetGreatest(MAX_INT64, NugetVersion.Parse(bound).value);
  }

  lemma NugetGreatest(m: nat, v: NugetVersion.Version)
    requires v.major <= m && v.minor <= m && v.patch <= m && v.revision <= m
    ensures NugetVersion.Compare(NugetVersion.Version(m, m, m, m, []), v) >= 0
  {
  }

  lemma GoFits(bound: string)
    requires GoToolchain.ParseBound(bound).Some?
    ensures var v := GoToolchain.ParseBound(bound).value;
            v.major <= MAX_INT64 && v.minor <= MAX_INT64 && v.patch <= MAX_INT64
  {
    hide TrimFunc, Split, IndexOf, GoToolchain.ParseVersion;
    var t := TrimSpace(bound);
    var dash := IndexOf(t, '-');
    GoToolchain.ParsedFits(if dash < 0 then bound else t[..dash]);
  }

  lemma GoTopIsPast(bound: string)
    requires GoToolchain.ParseBound(bound).Some?
    ensures GoToolchain.OutsideUpper(GoTop(), bound) == Some(true)
  {
    hide GoTop, GoToolchain.ParseBound, GoToolchain.Compare;
    GoTopReads();
    GoFits(bound);
    GoGreatest(MAX_INT64, GoToolchain.ParseBound(bound).value);
  }

  lemma GoGreatest(m: nat, v: GoToolchain.Version)
    requires v.major <= m && v.minor <= m && v.patch <= m
    ensures GoToolchain.Compare(GoToolchain.Version(m, m, m, None), v) >= 0
  {
  }

  // ----- Maven has no greatest version, but one past any given bounds -----

  /** A number greater than the one a parsed bound begins with. */
  function Lead(bound: string): nat {
    var p := MavenVersion.Parse(bound);
    if p.ListItem? && p.items != [] && p.items[0].IntItem? then p.items[0].n else 0
  }

  function PastLeads(bounds: seq<string>): (n: nat)
    ensures n > MAX_INT64 && forall i :: 0 <= i < |bounds| ==> n > Lead(bounds[i])
  {
    if bounds == [] then MAX_INT64 + 1
    else
      var rest := PastLeads(bounds[1..]);
      if Lead(bounds[0]) >= rest then Lead(bounds[0]) + 1 else rest
  }

  lemma NumberReads(n: nat)
    requires n > 0
    ensures MavenVersion.GrammarOK(Itoa(n)) && MavenVersion.Parse(Itoa(n)) ==
            MavenVersion.ListItem([MavenVersion.IntItem(n)])
  {
    hide Itoa, MavenVersion.Parse;
    var p := MavenOrder.Plain([Itoa(n)], "", "");
    assert MavenOrder.WellFormed(p) by { NumberIsPlain(n); }
    MavenOrder.ParsePlain(p);
    assert MavenOrder.Text(p) == Itoa(n) by { assert Itoa(n) + "" == Itoa(n); }
    var ints := MavenOrder.Ints(p.nums);
    assert ints == [MavenVersion.IntItem(n)];
  }

  lemma NumberIsPlain(n: nat)
    ensures MavenOrder.WellFormed(MavenOrder.Plain([Itoa(n)], "", ""))
  {
    hide Itoa;
  }

  lemma NumberIsPast(n: nat, bound: string)
    requires MavenVersion.GrammarOK(bound) && n > Lead(bound)
    ensures MavenVersion.CompareVersions(Itoa(n), bound) == Some(1)
  {
    hide Itoa, MavenVersion.Parse, MavenVersion.GrammarOK;
    NumberReads(n);
    MavenVersion.ParseIsRightSpine(bound);
    LeadDecides(n, MavenVersion.Parse(bound).items);
  }

  lemma LeadDecides(n: nat, items: seq<MavenVersion.Item>)
    requires n > 0 && (items != [] && items[0].IntItem? ==> n > items[0].n)
    ensures MavenVersion.CompareLists([MavenVersion.IntItem(n)], items) == 1
  {
  }

  /** A lone number past every int is neither an npm, a NuGet nor a toolchain version. */
  lemma NumberUnread(n: nat)
    requires n > MAX_INT64
    ensures NpmVersion.Parse(Itoa(n)).None? && NugetVersion.Parse(Itoa(n)).None?
            && GoToolchain.ParseBound(Itoa(n)).None?
  {
    hide Itoa, Split, TrimFunc, AtoiNonNeg, NugetVersion.AllowedChars;
    var s := Itoa(n);
    TrimNothing(s, IsSpace);
    TrimNothing(s, NpmVersion.IsASCIISpace);
    LettersAndDots("", s);
    assert "" + s == s;
    DashFree(s);
    AtoiItoa(n);
    assert Join([s], '.') == s;
    SplitJoin([s], '.');
    assert TrimPrefix(s, "v") == s && TrimPrefix(s, "go") == s;
    assert NugetVersion.Core(s).None? && GoToolchain.ParseTrimmed(s).None? && NpmVersion.ParseCore(s).None?;
  }
}
