/** Npm versions and x-ranges as texts: what is written reads back (pipeline/npm_version.go). */
module NpmText {
  import opened GoStrings
  import Prerelease
  import opened NpmVersion

  // ----- versions -----

  /** What a parsed version is: components within 2^53-1 and valid prerelease identifiers. */
  predicate WellFormed(v: Version) {
    Bounded(v) && forall i :: 0 <= i < |v.prerelease| ==> ValidIdentifier(v.prerelease[i], true)
  }

  function CoreText(v: Version): string {
    Join([Itoa(v.major), Itoa(v.minor), Itoa(v.patch)], '.')
  }

  function Text(v: Version): string {
    CoreText(v) + if v.prerelease == [] then "" else "-" + Join(v.prerelease, '.')
  }

  /** A version as it may be written: with a leading 'v', and build metadata behind it. */
  function Written(v: Version, prefix: bool, build: seq<string>): string {
    (if prefix then "v" else "") + Text(v) + if build == [] then "" else "+" + Join(build, '.')
  }

  lemma ComponentRoundTrip(n: nat)
    requires n <= SEMVER_MAX
    ensures VersionComponent(Itoa(n)) == Some(n)
  {
    hide Itoa, AtoiNonNeg;
    AtoiItoa(n);
  }

  lemma CoreTextSplits(v: Version)
    ensures Split(CoreText(v), '.') == [Itoa(v.major), Itoa(v.minor), Itoa(v.patch)]
    ensures forall k :: 0 <= k < |CoreText(v)| ==> IsDigit(CoreText(v)[k]) || CoreText(v)[k] == '.'
    ensures CoreText(v) != "" && IsDigit(CoreText(v)[0])
  {
    hide Itoa, Split;
    var parts := [Itoa(v.major), Itoa(v.minor), Itoa(v.patch)];
    assert forall i :: 0 <= i < 3 ==> AllDigits(parts[i]) && '.' !in parts[i];
    SplitJoin(parts, '.');
    JoinChars(parts, '.', IsDigit);
  }

  /** Identifiers read back as they are, and hold neither a dot nor a plus sign. */
  lemma IdentifiersRoundTrip(ids: seq<string>, prerelease: bool)
    requires ids != [] && forall i :: 0 <= i < |ids| ==> ValidIdentifier(ids[i], prerelease)
    ensures Split(Join(ids, '.'), '.') == ids && ValidIdentifiers(Join(ids, '.'), prerelease)
    ensures Join(ids, '.') != ""
    ensures forall k :: 0 <= k < |Join(ids, '.')| ==> IsIdentifierChar(Join(ids, '.')[k]) || Join(ids, '.')[k] == '.'
  {
    hide Split, AtoiNonNeg;
    assert forall i, k :: 0 <= i < |ids| && 0 <= k < |ids[i]| ==> IsIdentifierChar(ids[i][k]);
    assert forall i :: 0 <= i < |ids| ==> '.' !in ids[i];
    SplitJoin(ids, '.');
    JoinChars(ids, '.', IsIdentifierChar);
    assert ids[0] != "";
  }

  lemma CoreRoundTrip(v: Version)
    requires WellFormed(v)
    ensures ParseCore(Text(v)) == Some(v)
  {
    hide Split, IndexOf, Itoa, VersionComponent, ValidIdentifier, ValidIdentifiers, CoreText;
    var s, core := Text(v), CoreText(v);
    CoreTextSplits(v);
    ComponentRoundTrip(v.major);
    ComponentRoundTrip(v.minor);
    ComponentRoundTrip(v.patch);
    assert '-' !in core;
    if v.prerelease == [] {
      assert core + "" == core;
    } else {
      var pre := Join(v.prerelease, '.');
      IdentifiersRoundTrip(v.prerelease, true);
      assert s == core + ['-'] + pre;
      FirstIndex(core, '-', pre);
      assert s[..|core|] == core && s[|core| + 1..] == pre;
    }
  }

  lemma TextChars(v: Version)
    requires WellFormed(v)
    ensures '+' !in Text(v) && Text(v) != "" && IsDigit(Text(v)[0]) && !IsASCIISpace(Text(v)[|Text(v)| - 1])
  {
    hide Split, Itoa, ValidIdentifier, ValidIdentifiers, CoreText, Join;
    CoreTextSplits(v);
    if v.prerelease != [] {
      IdentifiersRoundTrip(v.prerelease, true);
    }
  }

  lemma BareRoundTrip(v: Version, build: seq<string>)
    requires WellFormed(v) && forall i :: 0 <= i < |build| ==> ValidIdentifier(build[i], false)
    ensures ParseBare(Written(v, false, build)) == Some(v)
  {
    hide WellFormed, Text, ParseCore, IndexOf, ValidIdentifier, ValidIdentifiers, Join;
    TextChars(v);
    CoreRoundTrip(v);
    var s := Written(v, false, build);
    if build == [] {
      assert s == Text(v);
    } else {
      IdentifiersRoundTrip(build, false);
      FirstIndex(Text(v), '+', Join(build, '.'));
      assert s == Text(v) + ['+'] + Join(build, '.');
      assert s[..|Text(v)|] == Text(v) && s[|Text(v)| + 1..] == Join(build, '.');
    }
  }

  lemma WrittenEnds(v: Version, build: seq<string>)
    requires WellFormed(v) && forall i :: 0 <= i < |build| ==> ValidIdentifier(build[i], false)
    ensures var s := Written(v, false, build); s != "" && IsDigit(s[0]) && !IsASCIISpace(s[|s| - 1])
  {
    hide WellFormed, Text, ValidIdentifier, ValidIdentifiers, Join;
    TextChars(v);
    if build != [] {
      IdentifiersRoundTrip(build, false);
    }
  }

  /** Every well-formed version, written with or without a 'v' and build metadata, parses back to itself. */
  lemma WrittenReadsBack(v: Version, prefix: bool, build: seq<string>)
    requires WellFormed(v) && forall i :: 0 <= i < |build| ==> ValidIdentifier(build[i], false)
    ensures Parse(Written(v, prefix, build)) == Some(v)
  {
    hide WellFormed, Text, ParseBare, TrimFunc, ValidIdentifier, Join;
    BareRoundTrip(v, build);
    WrittenEnds(v, build);
    var bare, s := Written(v, false, build), Written(v, prefix, build);
    assert s == (if prefix then "v" else "") + bare;
    assert s[|s| - 1] == bare[|bare| - 1];
    TrimNothing(s, IsASCIISpace);
    assert s[if prefix then 1 else 0..] == bare;
  }

  /** What parses is well formed, and parses the same once written out plainly. */
  lemma ParsedIsWellFormed(s: string)
    requires Parse(s).Some?
    ensures WellFormed(Parse(s).value)
    ensures Parse(Written(Parse(s).value, false, [])) == Parse(s)
  {
    hide TrimFunc, ValidIdentifier, IndexOf, Written;
    WrittenReadsBack(Parse(s).value, false, []);
  }

  // ----- two versions of one rank, and a bound with a blank in front -----

  /** 1.0.0--0 and 1.0.0-0 both parse, differ, and compare equal. */
  lemma EqualVersionsDiffer()
    ensures var a, b := Version(1, 0, 0, ["-0"]), Version(1, 0, 0, ["0"]);
            Parse(Text(a)) == Some(a) && Parse(Text(b)) == Some(b) && a != b && Compare(a, b) == 0
  {
    hide Parse, Itoa;
    var a, b := Version(1, 0, 0, ["-0"]), Version(1, 0, 0, ["0"]);
    Prerelease.EqualIsNotIdentical();
    ZeroIsValid();
    WrittenReadsBack(a, false, []);
    WrittenReadsBack(b, false, []);
    assert Text(a) + "" == Text(a) && Text(b) + "" == Text(b) && "" + Text(a) == Text(a) && "" + Text(b) == Text(b);
  }

  lemma ZeroIsValid()
    ensures ValidIdentifier("-0", true) && ValidIdentifier("0", true)
  {
    assert !IsDigit("-0"[0]);
    assert AllDigits("0") && "0"[..0] == "";
    assert Decimal("0") == 0;
  }

  lemma BlankInFront(t: string)
    ensures TrimASCIISpace(" " + t) == TrimASCIISpace(t)
  {
    hide TrimRight;
    assert (" " + t)[1..] == t;
  }

  lemma TextIsVersionChars(v: Version)
    requires WellFormed(v)
    ensures Parse(Text(v)) == Some(v) && Text(v) != ""
    ensures forall k :: 0 <= k < |Text(v)| ==> IsVersionChar(Text(v)[k])
  {
    hide Parse, TrimFunc, WellFormed, Text, IsVersionChar;
    WrittenReadsBack(v, false, []);
    WrittenEnds(v, []);
    assert Written(v, false, []) == Text(v);
    ParsedChars(Text(v));
    TrimNothing(Text(v), IsASCIISpace);
  }

  /** A bound with a blank in front is read as the version it holds; "<" in front of it makes a range nothing reads. */
  lemma BlankBoundFails(ver: string, v: Version)
    requires WellFormed(v) && Parse(ver).Some?
    ensures DisqualifyOutside(ver, " " + Text(v)) == Some(Compare(Parse(ver).value, v) >= 0)
    ensures DisqualifyOutside(ver, "<" + (" " + Text(v))) == None
  {
    hide ParseBare, ParseComparatorSet, TrimFunc, WellFormed, Text, SplitUnion, Compare;
    var t := Text(v);
    TextIsVersionChars(v);
    BlankInFront(t);
    BlankAfterOperator(" ", t);
    OperatorIsNoVersion(" ", t, "");
    TrimBehindOperator(" ", t, "");
    assert " " + t + "" == " " + t;
    assert '|' !in "<" + (" " + t);
    SingleSet(ver, "<" + (" " + t));
  }

  // ----- x-ranges -----

  /** v has the components given. */
  predicate HasComponents(v: Version, nums: seq<nat>) {
    && (|nums| > 0 ==> v.major == nums[0])
    && (|nums| > 1 ==> v.minor == nums[1])
  }

  lemma Wildcards(s: string)
    requires IsWildcard(s)
    ensures VersionComponent(s).None? && Split(s, '.') == [s]
  {
    assert Split(s[1..], '.') == [[]] && s == [s[0]] + [];
    assert !IsDigit(s[0]) && s[0] != '-';
  }

  /** LeadingComponents, component by component. */
  lemma Leading(parts: seq<string>)
    requires 1 <= |parts| <= 3 && !IsWildcard(parts[0])
    ensures var n := VersionComponent(parts[0]);
            LeadingComponents(parts) ==
            if n.None? then None
            else if |parts| == 1 || IsWildcard(parts[1]) then Some([n.value])
            else if VersionComponent(parts[1]).None? then None
            else if |parts| == 2 || IsWildcard(parts[2]) then Some([n.value, VersionComponent(parts[1]).value])
            else if VersionComponent(parts[2]).None? then None
            else Some([n.value, VersionComponent(parts[1]).value, VersionComponent(parts[2]).value])
  {
    hide VersionComponent, IsWildcard, LeadingComponents;
    LeadingStep(parts);
    if |parts| > 1 && VersionComponent(parts[0]).Some? {
      LeadingStep(parts[1..]);
      if |parts| > 2 && !IsWildcard(parts[1]) {
        assert parts[1..][1..] == [parts[2]];
        LeadingStep([parts[2]]);
      }
    }
    LeadingStep([]);
    assert |parts| == 1 ==> parts[1..] == [];
    assert |parts| == 2 ==> parts[1..][1..] == [];
    assert |parts| == 3 ==> [parts[2]][1..] == [];
    forall a: nat, b: nat, c: nat
      ensures Prepend([a], Some([])) == Some([a]) && Prepend([a], Prepend([b], Some([]))) == Some([a, b])
      ensures Prepend([a], Prepend([b], Prepend([c], Some([])))) == Some([a, b, c])
    {
      assert [a] + [] == [a] && [b] + [] == [b] && [c] + [] == [c];
      assert [a] + [b] == [a, b] && [b] + [c] == [b, c] && [a] + [b, c] == [a, b, c];
    }
  }

  lemma LeadingStep(parts: seq<string>)
    ensures LeadingComponents(parts) ==
            if parts == [] || IsWildcard(parts[0]) then Some([])
            else match VersionComponent(parts[0])
                 case Some(n) => Prepend([n], LeadingComponents(parts[1..]))
                 case None => None
  {
    hide VersionComponent, IsWildcard;
  }

  /** The components an accepted x-range gives, and the window they make. */
  lemma XRangeReads(raw: string)
    ensures var s := TrimASCIISpace(raw); var nums := LeadingComponents(Split(s, '.'));
            if s == "" || IsWildcard(s) then XRange(raw) == Some([Comparator(Ge, ZERO)])
            else
              && (XRange(raw).Some? <==>
                  && nums.Some? && 0 < |nums.value| < 3 && |Split(s, '.')| <= 3
                  && nums.value[|nums.value| - 1] < SEMVER_MAX)
              && (XRange(raw).Some? ==> XRange(raw).value == PrefixWindow(nums.value))
  {
    hide TrimFunc, Split, VersionComponent, IsWildcard, LeadingComponents;
    var s := TrimASCIISpace(raw);
    var parts := Split(s, '.');
    if s != "" && !IsWildcard(s) {
      if IsWildcard(parts[0]) {
        Wildcards(parts[0]);
        LeadingWildcard(parts);
      } else if |parts| <= 3 {
        Leading(parts);
      }
      if |parts| > 1 && IsWildcard(parts[1]) { Wildcards(parts[1]); }
    }
  }

  lemma LeadingWildcard(parts: seq<string>)
    requires parts != [] && IsWildcard(parts[0])
    ensures LeadingComponents(parts) == Some([])
  {
  }

  function PrefixWindow(nums: seq<nat>): seq<Comparator>
    requires 0 < |nums| < 3
  {
    if |nums| == 1 then Window(Version(nums[0], 0, 0, []), Version(nums[0] + 1, 0, 0, []))
    else Window(Version(nums[0], nums[1], 0, []), Version(nums[0], nums[1] + 1, 0, []))
  }

  lemma PrefixWindowMembers(nums: seq<nat>, v: Version)
    requires 0 < |nums| < 3 && v.prerelease == []
    ensures SatisfiesSet(v, PrefixWindow(nums), false) <==> HasComponents(v, nums)
  {
    var w := PrefixWindow(nums);
    assert SatisfiesSet(v, w, false) <==> Satisfies(v, w[0]) && Satisfies(v, w[1]);
  }

  /** A blank x-range or a bare wildcard admits every release. Any other is accepted exactly when it gives one or
      two components, the last with a successor, and admits exactly the releases that have them. */
  lemma XRangeOnReleases(raw: string, v: Version)
    requires v.prerelease == []
    ensures var s := TrimASCIISpace(raw); var nums := LeadingComponents(Split(s, '.'));
            if s == "" || IsWildcard(s) then XRange(raw).Some? && SatisfiesSet(v, XRange(raw).value, false)
            else
              && (XRange(raw).Some? <==>
                  && nums.Some? && 0 < |nums.value| < 3 && |Split(s, '.')| <= 3
                  && nums.value[|nums.value| - 1] < SEMVER_MAX)
              && (XRange(raw).Some? ==> (SatisfiesSet(v, XRange(raw).value, false) <==> HasComponents(v, nums.value)))
  {
    hide XRange, TrimFunc, Split, LeadingComponents, IsWildcard, PrefixWindow, HasComponents;
    XRangeReads(raw);
    if TrimASCIISpace(raw) == "" || IsWildcard(TrimASCIISpace(raw)) {
      assert [Comparator(Ge, ZERO)][0] == Comparator(Ge, ZERO);
    } else if XRange(raw).Some? {
      PrefixWindowMembers(LeadingComponents(Split(TrimASCIISpace(raw), '.')).value, v);
    }
  }

  /** "1.2.x" admits exactly the releases with major 1 and minor 2. */
  lemma MinorWildcard(major: nat, minor: nat, wild: string, v: Version)
    requires v.prerelease == [] && IsWildcard(wild) && major <= SEMVER_MAX && minor < SEMVER_MAX
    ensures var x := XRange(Join([Itoa(major), Itoa(minor), wild], '.'));
            x.Some? && (SatisfiesSet(v, x.value, false) <==> v.major == major && v.minor == minor)
  {
    hide XRange, TrimFunc, Itoa, Split, VersionComponent, LeadingComponents, SatisfiesSet, Join;
    var parts := [Itoa(major), Itoa(minor), wild];
    XTextSplits(major, minor, wild);
    ComponentRoundTrip(major);
    ComponentRoundTrip(minor);
    assert !IsWildcard(parts[0]) && !IsWildcard(parts[1]);
    assert IsDigit(parts[0][0]) && IsDigit(parts[1][0]);
    Leading(parts);
    XRangeOnReleases(Join(parts, '.'), v);
  }

  lemma XTextSplits(major: nat, minor: nat, wild: string)
    requires IsWildcard(wild)
    ensures var parts := [Itoa(major), Itoa(minor), wild]; var raw := Join(parts, '.');
            && TrimASCIISpace(raw) == raw && Split(raw, '.') == parts && |raw| >= 5
  {
    hide TrimFunc, Itoa, Split;
    var parts := [Itoa(major), Itoa(minor), wild];
    var rest := parts[1..];
    assert rest[1..] == [wild];
    assert Join(rest, '.') == parts[1] + "." + wild;
    assert Join(parts, '.') == parts[0] + "." + (parts[1] + "." + wild);
    assert '.' !in parts[0] by { assert AllDigits(parts[0]); }
    assert '.' !in parts[1] by { assert AllDigits(parts[1]); }
    SplitJoin(parts, '.');
    TrimNothing(Join(parts, '.'), IsASCIISpace);
  }
}
