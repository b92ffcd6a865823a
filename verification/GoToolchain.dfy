/** Go release versions and corpus bounds (pipeline/go_toolchain_version.go). */
module GoToolchain {
  import opened GoStrings

  /** rank is None for a release, -1 for "-0" and N for "-rc.N". */
  datatype Version = Version(major: nat, minor: nat, patch: nat, rank: Option<int>)

  function NonNegatives(parts: seq<string>): (r: Option<seq<nat>>)
    ensures r.Some? ==> |r.value| == |parts|
    ensures r.Some? ==> forall i :: 0 <= i < |parts| ==> AtoiNonNeg(parts[i]) == Some(r.value[i])
    ensures (forall i :: 0 <= i < |parts| ==> AtoiNonNeg(parts[i]).Some?) ==> r.Some?
  {
    if parts == [] then Some([])
    else match AtoiNonNeg(parts[0])
      case None => None
      case Some(n) => match NonNegatives(parts[1..]) case Some(rest) => Some([n] + rest) case None => None
  }

  /** "[go]MAJOR.MINOR[.PATCH]" without surrounding blanks. */
  function ParseTrimmed(s: string): Option<Version> {
    var bare := TrimPrefix(s, "go");
    var parts := Split(bare, '.');
    if bare == "" || |parts| < 2 || |parts| > 3 then None
    else match NonNegatives(parts)
      case None => None
      case Some(seg) => Some(Version(seg[0], seg[1], if |seg| == 3 then seg[2] else 0, None))
  }

  /** parseGoToolchainVersion: releases only. */
  function ParseVersion(s: string): Option<Version> {
    ParseTrimmed(TrimSpace(s))
  }

  /** The rank a prerelease suffix gives: "0", or "rc." and a number in plain decimal. */
  function ParseRank(pre: string): (r: Option<int>)
    ensures r.Some? ==> r.value >= -1
  {
    if pre == "0" then var least: int := -1; Some(least)
    else if "rc." <= pre then
      var num := pre[3..];
      if AtoiNonNeg(num).None? || num[0] == '-' || (|num| > 1 && num[0] == '0') then None
      else var rank: int := AtoiNonNeg(num).value; Some(rank)
    else None
  }

  function CountDots(s: string): nat {
    |Split(s, '.')| - 1
  }

  /** parseGoToolchainBound: releases, and "-0" and "-rc.N" on a full MAJOR.MINOR.PATCH. */
  function ParseBound(s: string): Option<Version> {
    var t := TrimSpace(s);
    var dash := IndexOf(t, '-');
    if dash < 0 then ParseVersion(s)
    else if CountDots(TrimPrefix(t[..dash], "go")) != 2 then None
    else match (ParseVersion(t[..dash]), ParseRank(t[dash + 1..]))
      case (Some(v), Some(rank)) => Some(v.(rank := Some(rank)))
      case _ => None
  }

  function Compare(a: Version, b: Version): (c: int)
    ensures -1 <= c <= 1
  {
    if a.major != b.major then CmpInt(a.major, b.major)
    else if a.minor != b.minor then CmpInt(a.minor, b.minor)
    else if a.patch != b.patch then CmpInt(a.patch, b.patch)
    else match (a.rank, b.rank)
      case (Some(x), Some(y)) => CmpInt(x, y)
      case (Some(_), None) => -1
      case (None, Some(_)) => 1
      case (None, None) => 0
  }

  /** goToolchainVersionOutsideRange: None is the source's ok=false. */
  function OutsideUpper(ver: string, upper: string): Option<bool> {
    match (ParseBound(ver), ParseBound(upper))
    case (Some(a), Some(b)) => Some(Compare(a, b) >= 0)
    case _ => None
  }

  function Format(v: Version): string {
    "go" + Itoa(v.major) + "." + Itoa(v.minor) + "." + Itoa(v.patch)
  }

  // ----- a total order -----

  lemma TotalOrder(a: Version, b: Version, c: Version)
    ensures Compare(a, b) == -Compare(b, a)
    ensures Compare(a, b) == 0 <==> a == b
    ensures Compare(a, b) <= 0 && Compare(b, c) <= 0 ==> Compare(a, c) <= 0
  {
  }

  /** What a floor proves to be outside is outside for whatever is above the floor too. */
  lemma OutsideIsMonotone(floor: string, ver: string, upper: string)
    requires ParseBound(floor).Some? && ParseBound(ver).Some?
    requires Compare(ParseBound(floor).value, ParseBound(ver).value) <= 0
    requires OutsideUpper(floor, upper) == Some(true)
    ensures OutsideUpper(ver, upper) == Some(true)
  {
    hide ParseBound, Compare;
    var f, v, u := ParseBound(floor).value, ParseBound(ver).value, ParseBound(upper).value;
    TotalOrder(u, f, v);
    TotalOrder(v, u, f);
  }

  /** "-0" is the least version of its release line: at or past it is exactly at or past its core. */
  lemma ZeroPrereleaseIsLeast(bound: string, ver: string)
    requires ParseBound(bound).Some? && ParseBound(bound).value.rank == Some(-1) && ParseBound(ver).Some?
    ensures var b, v := ParseBound(bound).value, ParseBound(ver).value;
            OutsideUpper(ver, bound) == Some(Compare(v.(rank := None), b.(rank := None)) >= 0)
  {
    hide ParseBound, Compare;
    ParsedRank(ver);
    LeastRank(ParseBound(ver).value, ParseBound(bound).value);
  }

  lemma LeastRank(v: Version, b: Version)
    requires b.rank == Some(-1) && (v.rank.Some? ==> v.rank.value >= -1)
    ensures Compare(v, b) >= 0 <==> Compare(v.(rank := None), b.(rank := None)) >= 0
  {
  }

  lemma ParsedRank(s: string)
    requires ParseBound(s).Some?
    ensures ParseBound(s).value.rank.Some? ==> ParseBound(s).value.rank.value >= -1
  {
    hide ParseVersion, TrimFunc, IndexOf, Split;
    assert forall t :: ParseVersion(t).Some? ==> ParseVersion(t).value.rank.None? by { Releases(); }
  }

  lemma Releases()
    ensures forall t :: ParseVersion(t).Some? ==> ParseVersion(t).value.rank.None?
  {
    hide NonNegatives, TrimFunc, Split;
  }

  // ----- formatting round trip -----

  lemma FormatParts(v: Version)
    ensures Split(Format(v)[2..], '.') == [Itoa(v.major), Itoa(v.minor), Itoa(v.patch)]
    ensures forall i :: 0 <= i < |Format(v)| ==> IsDigit(Format(v)[i]) || Format(v)[i] == '.' || i < 2
  {
    hide Itoa, Split;
    var parts := [Itoa(v.major), Itoa(v.minor), Itoa(v.patch)];
    assert forall i :: 0 <= i < 3 ==> AllDigits(parts[i]);
    assert forall i :: 0 <= i < 3 ==> '.' !in parts[i];
    SplitJoin(parts, '.');
    var rest := parts[1..];
    assert rest[1..] == [parts[2]];
    assert Join(rest, '.') == parts[1] + "." + parts[2];
    assert Join(parts, '.') == parts[0] + "." + (parts[1] + "." + parts[2]);
    assert Format(v) == "go" + Join(parts, '.');
    assert Format(v)[2..] == Join(parts, '.');
  }

  /** A formatted release parses back to itself, as a version and as a bound. */
  lemma FormatRoundTrip(v: Version)
    requires v.rank == None && v.major <= MAX_INT64 && v.minor <= MAX_INT64 && v.patch <= MAX_INT64
    ensures ParseVersion(Format(v)) == Some(v)
    ensures ParseBound(Format(v)) == Some(v)
  {
    hide Itoa, Split, TrimFunc, AtoiNonNeg, Format;
    var s := Format(v);
    FormatParts(v);
    var parts := [Itoa(v.major), Itoa(v.minor), Itoa(v.patch)];
    FormatEnds(v);
    TrimNothing(s, IsSpace);
    AtoiItoa(v.major);
    AtoiItoa(v.minor);
    AtoiItoa(v.patch);
    assert NonNegatives(parts).Some? && NonNegatives(parts).value == [v.major, v.minor, v.patch];
    assert TrimPrefix(s, "go") == s[2..];
    assert Split("", '.') != parts by { EmptySplit(); }
    assert ParseTrimmed(s) == Some(v);
    assert '-' !in s;
  }

  lemma EmptySplit()
    ensures |Split("", '.')| == 1
  {
  }

  lemma FormatEnds(v: Version)
    ensures var s := Format(v); |s| >= 2 && s[0] == 'g' && s[1] == 'o' && "go" <= s && IsDigit(s[|s| - 1])
    ensures '-' !in Format(v)
  {
    hide Itoa;
    var last := Itoa(v.patch);
    assert Format(v)[|Format(v)| - 1] == last[|last| - 1];
    FormatParts(v);
  }

  /** What a parsed version's segments are bounded by: they came through an int. */
  lemma ParsedFits(s: string)
    requires ParseVersion(s).Some?
    ensures var v := ParseVersion(s).value;
            v.rank == None && v.major <= MAX_INT64 && v.minor <= MAX_INT64 && v.patch <= MAX_INT64
  {
    hide TrimFunc, Split, AtoiNonNeg;
    var parts := Split(TrimPrefix(TrimSpace(s), "go"), '.');
    assert AtoiNonNeg(parts[0]).Some? && AtoiNonNeg(parts[1]).Some?;
    if |parts| == 3 { assert AtoiNonNeg(parts[2]).Some?; }
  }

  // ----- the order, number by number -----

  /** A prerelease is below its release, a lower one below a higher. */
  ghost predicate RankBelow(a: Option<int>, b: Option<int>) {
    a.Some? && (b.None? || a.value < b.value)
  }

  /** The first of major, minor and patch that differs decides, then the rank. */
  lemma OrderIs(a: Version, b: Version)
    ensures Compare(a, b) < 0 <==>
            || a.major < b.major
            || (a.major == b.major && a.minor < b.minor)
            || (a.major == b.major && a.minor == b.minor && a.patch < b.patch)
            || (a.major == b.major && a.minor == b.minor && a.patch == b.patch && RankBelow(a.rank, b.rank))
  {
  }

  // ----- the texts of releases and prereleases -----

  lemma SplitsBack(nums: seq<string>)
    requires nums != [] && forall i :: 0 <= i < |nums| ==> AllDigits(nums[i])
    ensures Split(Join(nums, '.'), '.') == nums
  {
    hide Split, Join;
    forall i | 0 <= i < |nums| ensures '.' !in nums[i] {
      assert AllDigits(nums[i]);
    }
    SplitJoin(nums, '.');
  }

  lemma GoInFront(bare: string, s: string)
    requires bare != "" && IsDigit(bare[0]) && IsDigit(bare[|bare| - 1]) && (s == bare || s == "go" + bare)
    ensures TrimSpace(s) == s && TrimPrefix(s, "go") == bare
  {
    hide TrimFunc;
    assert s[|s| - 1] == bare[|bare| - 1];
    TrimNothing(s, IsSpace);
    if s != bare { assert s[2..] == bare; } else { assert bare[0] != 'g'; }
  }

  lemma NumbersRead(nums: seq<string>, s: string)
    requires 2 <= |nums| <= 3 && (s == Join(nums, '.') || s == "go" + Join(nums, '.'))
    requires forall i :: 0 <= i < |nums| ==> nums[i] != "" && AllDigits(nums[i]) && AtoiNonNeg(nums[i]).Some?
    ensures var n := (i: nat) requires i < |nums| => AtoiNonNeg(nums[i]).value;
            ParseVersion(s) == Some(Version(n(0), n(1), if |nums| == 3 then n(2) else 0, None))
  {
    hide Split, AtoiNonNeg, TrimSpace, Join, AllDigits;
    SplitsBack(nums);
    JoinEnds(nums);
    GoInFront(Join(nums, '.'), s);
  }

  lemma {:induction false} JoinEnds(nums: seq<string>)
    requires nums != [] && forall i :: 0 <= i < |nums| ==> nums[i] != "" && AllDigits(nums[i])
    ensures var s := Join(nums, '.'); s != "" && IsDigit(s[0]) && IsDigit(s[|s| - 1])
  {
    if |nums| > 1 {
      JoinEnds(nums[1..]);
      var rest, s := Join(nums[1..], '.'), Join(nums, '.');
      assert s[|s| - 1] == rest[|rest| - 1] && s[0] == nums[0][0];
    }
  }

  /** Three numbers are a release, two one of patch 0, with "go" in front or without. */
  lemma ReleaseReads(v: Version, text: string)
    requires v.rank == None && v.major <= MAX_INT64 && v.minor <= MAX_INT64 && v.patch <= MAX_INT64
    requires var bare := Join([Itoa(v.major), Itoa(v.minor), Itoa(v.patch)], '.'); text == bare || text == "go" + bare
    ensures ParseVersion(text) == Some(v)
  {
    hide Itoa, AtoiNonNeg, ParseVersion, Join;
    AtoiItoa(v.major);
    AtoiItoa(v.minor);
    AtoiItoa(v.patch);
    NumbersRead([Itoa(v.major), Itoa(v.minor), Itoa(v.patch)], text);
  }

  lemma ShortReleaseReads(major: nat, minor: nat, text: string)
    requires major <= MAX_INT64 && minor <= MAX_INT64
    requires var bare := Join([Itoa(major), Itoa(minor)], '.'); text == bare || text == "go" + bare
    ensures ParseVersion(text) == Some(Version(major, minor, 0, None))
  {
    hide Itoa, AtoiNonNeg, ParseVersion, Join;
    AtoiItoa(major);
    AtoiItoa(minor);
    NumbersRead([Itoa(major), Itoa(minor)], text);
  }

  /** "-rc.n" behind three numbers is the n-th candidate, "-0" is below them all, and any other prerelease, or one
      behind two numbers, is none. */
  lemma PrereleaseReads(v: Version, pre: string)
    requires v.rank == None && v.major <= MAX_INT64 && v.minor <= MAX_INT64 && v.patch <= MAX_INT64
    requires pre != "" && !IsSpace(pre[|pre| - 1])
    ensures ParseBound(Format(v) + "-" + pre) ==
            match ParseRank(pre) case Some(rank) => Some(v.(rank := Some(rank))) case None => None
  {
    hide Itoa, ParseVersion, Format, TrimFunc, ParseRank, Split;
    var f := Format(v);
    var s := f + "-" + pre;
    FormatRoundTrip(v);
    FormatEnds(v);
    FormatDots(v);
    TrimNothing(s, IsSpace);
    assert f + ['-'] + pre == s;
    FirstIndex(f, '-', pre);
    assert s[..|f|] == f && s[|f| + 1..] == pre;
  }

  lemma FormatDots(v: Version)
    ensures CountDots(TrimPrefix(Format(v), "go")) == 2
  {
    hide Itoa, Split;
    FormatParts(v);
  }

  lemma RanksRead(n: nat)
    requires n <= MAX_INT64
    ensures ParseRank("rc." + Itoa(n)) == Some(n) && ParseRank("0") == Some(-1)
  {
    hide Itoa, AtoiNonNeg;
    AtoiItoa(n);
    assert ("rc." + Itoa(n))[3..] == Itoa(n);
  }

  /** And there are no other ranks: a candidate's number is in plain decimal. */
  lemma RanksExactly(pre: string, rank: int)
    ensures ParseRank(pre) == Some(rank) <==>
            (pre == "0" && rank == -1) || (0 <= rank <= MAX_INT64 && pre == "rc." + Itoa(rank))
  {
    hide Itoa, AtoiNonNeg;
    if 0 <= rank <= MAX_INT64 { RanksRead(rank); }
    if ParseRank(pre) == Some(rank) && pre != "0" {
      var num := pre[3..];
      assert pre == "rc." + num;
      AtoiExactly(num, rank);
      PlainIsItoa(num, rank);
    }
  }

  lemma PlainIsItoa(num: string, n: nat)
    requires IsPadded(num, n) && num != "" && (|num| > 1 ==> num[0] != '0')
    ensures num == Itoa(n)
  {
    hide Itoa;
    var zeros: string :| (forall i :: 0 <= i < |zeros| ==> zeros[i] == '0') && num == zeros + Itoa(n);
    if zeros == "" {
      assert "" + Itoa(n) == Itoa(n);
    }
  }
}
