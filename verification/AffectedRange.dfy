/** The reading of one affected range and of an advisory's whole set (pipeline/affected_bounds.go,
    pipeline/stages.go). None stands for the source's ok=false. */
module AffectedRange {
  import opened GoStrings
  import GoToolchain
  import MavenVersion
  import NpmVersion
  import NugetVersion

  datatype Range = Range(upperExclusive: string, scheme: string, lowerInclusive: string, lastAffected: string,
                         rangeType: string)

  /** The two comparators whose code is elsewhere: PEP 440, and module semver on release versions. */
  datatype Comparators = Comparators(pypi: (string, string) -> Option<int>, gomod: (string, string) -> Option<int>)

  predicate Orderable(rangeType: string) {
    rangeType == "" || rangeType == "SEMVER" || rangeType == "ECOSYSTEM"
  }

  function CompareVersions(a: string, b: string, scheme: string, o: Comparators): Option<int> {
    if scheme == "maven" then MavenVersion.CompareVersions(a, b)
    else if scheme == "npm" then
      match (NpmVersion.Parse(a), NpmVersion.Parse(b))
      case (Some(x), Some(y)) => Some(NpmVersion.Compare(x, y))
      case _ => None
    else if scheme == "pypi" then o.pypi(a, b)
    else if scheme == "nuget" then
      match (NugetVersion.Parse(a), NugetVersion.Parse(b))
      case (Some(x), Some(y)) => Some(NugetVersion.Compare(x, y))
      case _ => None
    else if scheme == "go-toolchain" then
      match (GoToolchain.ParseBound(a), GoToolchain.ParseBound(b))
      case (Some(x), Some(y)) => Some(GoToolchain.Compare(x, y))
      case _ => None
    else if scheme == "" || scheme == "gomod" then o.gomod(a, b)
    else None
  }

  function AtOrPast(cmp: Option<int>): Option<bool> {
    match cmp case Some(c) => Some(c >= 0) case None => None
  }

  /** versionOutsideUpper; an unknown scheme falls to module semver here. */
  function OutsideUpper(ver: string, rng: Range, o: Comparators): Option<bool> {
    if rng.scheme == "maven" then AtOrPast(MavenVersion.CompareVersions(ver, rng.upperExclusive))
    else if rng.scheme == "npm" then NpmVersion.DisqualifyOutside(ver, rng.upperExclusive)
    else if rng.scheme == "pypi" then AtOrPast(o.pypi(ver, rng.upperExclusive))
    else if rng.scheme == "nuget" then NugetVersion.OutsideUpper(ver, rng.upperExclusive)
    else if rng.scheme == "go-toolchain" then GoToolchain.OutsideUpper(ver, rng.upperExclusive)
    else AtOrPast(o.gomod(ver, rng.upperExclusive))
  }

  /** versionBelowIntroduced. */
  function BelowIntroduced(ver: string, rng: Range, o: Comparators): Option<bool> {
    if rng.lowerInclusive == "" || rng.lowerInclusive == "0" then Some(false)
    else match CompareVersions(ver, rng.lowerInclusive, rng.scheme, o)
      case Some(c) => Some(c < 0)
      case None => None
  }

  /** versionAboveRangeTop. */
  function AboveTop(ver: string, rng: Range, o: Comparators): Option<bool> {
    if rng.upperExclusive != "" then OutsideUpper(ver, rng, o)
    else if rng.lastAffected != "" || rng.lowerInclusive != "" then Some(false)
    else OutsideUpper(ver, rng, o)
  }

  /** versionOutsideRange. */
  function OutsideRange(ver: string, rng: Range, o: Comparators): Option<bool> {
    if !Orderable(rng.rangeType) then None
    else if BelowIntroduced(ver, rng, o) == Some(true) then Some(true)
    else if AboveTop(ver, rng, o) == Some(true) then Some(true)
    else if BelowIntroduced(ver, rng, o).Some? && AboveTop(ver, rng, o).Some? then Some(false)
    else None
  }

  /** versionOutsideRanges: the first range that is not proved outside decides. */
  function OutsideRanges(ver: string, rngs: seq<Range>, o: Comparators): Option<bool> {
    if rngs == [] then None
    else if OutsideRange(ver, rngs[0], o) != Some(true) then OutsideRange(ver, rngs[0], o)
    else if |rngs| == 1 then Some(true)
    else OutsideRanges(ver, rngs[1..], o)
  }

  /** The loop as the source runs it. */
  method JudgeRanges(ver: string, rngs: seq<Range>, o: Comparators) returns (r: Option<bool>)
    ensures r == OutsideRanges(ver, rngs, o)
  {
    hide OutsideRange;
    if |rngs| == 0 {
      return None;
    }
    assert rngs[0..] == rngs;
    for i := 0 to |rngs|
      invariant i < |rngs| ==> OutsideRanges(ver, rngs, o) == OutsideRanges(ver, rngs[i..], o)
      invariant i == |rngs| ==> OutsideRanges(ver, rngs, o) == Some(true)
    {
      assert rngs[i..][1..] == rngs[i + 1..];
      var out := OutsideRange(ver, rngs[i], o);
      if out.None? {
        return None;
      }
      if !out.value {
        return Some(false);
      }
    }
    return Some(true);
  }

  /** What a refutation by a set of ranges is: a proof against every one of them. */
  ghost predicate ProvedOutside(ver: string, rngs: seq<Range>, o: Comparators) {
    rngs != [] && forall r :: r in rngs ==> OutsideRange(ver, r, o) == Some(true)
  }

  lemma {:induction false} OutsideRangesMeaning(ver: string, rngs: seq<Range>, o: Comparators)
    ensures OutsideRanges(ver, rngs, o) == Some(true) <==> ProvedOutside(ver, rngs, o)
  {
    hide OutsideRange;
    if |rngs| > 1 {
      OutsideRangesMeaning(ver, rngs[1..], o);
      assert forall r :: r in rngs <==> r == rngs[0] || r in rngs[1..];
    } else if |rngs| == 1 {
      assert rngs == [rngs[0]];
    }
  }

  /** The order of the ranges plays no part in a refutation, and more ranges only lose one. */
  lemma RefutationIsAntitone(ver: string, part: seq<Range>, all: seq<Range>, o: Comparators)
    requires part != [] && forall r :: r in part ==> r in all
    ensures OutsideRanges(ver, all, o) == Some(true) ==> OutsideRanges(ver, part, o) == Some(true)
  {
    hide OutsideRange;
    OutsideRangesMeaning(ver, part, o);
    OutsideRangesMeaning(ver, all, o);
  }

  lemma RefutationIgnoresOrder(ver: string, a: seq<Range>, b: seq<Range>, o: Comparators)
    requires multiset(a) == multiset(b)
    ensures OutsideRanges(ver, a, o) == Some(true) <==> OutsideRanges(ver, b, o) == Some(true)
  {
    hide OutsideRange;
    if a == [] || b == [] {
      assert |a| == |multiset(a)| == |multiset(b)| == |b|;
    } else {
      forall r ensures r in a <==> r in b {
        assert r in a <==> r in multiset(a);
        assert r in b <==> r in multiset(b);
      }
      RefutationIsAntitone(ver, a, b, o);
      RefutationIsAntitone(ver, b, a, o);
    }
  }

  /**
   A range places a version outside exactly when its type orders versions and one of its two proofs
   goes through: below an introduced bound above zero, or at or past a fixed bound. A last-affected
   bound never does, and with neither a fixed bound nor any other the empty bound is read.
   */
  lemma OutsideRangeMeaning(ver: string, rng: Range, o: Comparators)
    ensures OutsideRange(ver, rng, o) == Some(true) <==>
            && Orderable(rng.rangeType)
            && ((rng.lowerInclusive != "" && rng.lowerInclusive != "0"
                 && CompareVersions(ver, rng.lowerInclusive, rng.scheme, o).Some?
                 && CompareVersions(ver, rng.lowerInclusive, rng.scheme, o).value < 0)
                || ((rng.upperExclusive != "" || (rng.lastAffected == "" && rng.lowerInclusive == ""))
                    && OutsideUpper(ver, rng, o) == Some(true)))
  {
    hide CompareVersions, OutsideUpper;
  }

  // ----- what a refutation says of the versions -----

  /** The scheme compares the version with the bound, one text against the other: no npm range expression, no
      floating NuGet version. */
  predicate ComparesWith(ver: string, bound: string, scheme: string) {
    && scheme in ["maven", "npm", "pypi", "nuget", "go-toolchain", "", "gomod"]
    && (scheme == "npm" ==> NpmVersion.Parse(bound).Some?)
    && (scheme == "nuget" ==> !NugetVersion.IsFloating(ver) && !NugetVersion.IsFloating(bound))
  }

  /** The range types that order versions; a range of any other proves nothing. */
  const ORDERING: seq<string> := ["", "SEMVER", "ECOSYSTEM"]

  lemma OtherTypesProveNothing(ver: string, rng: Range, o: Comparators)
    requires rng.rangeType !in ORDERING
    ensures OutsideRange(ver, rng, o) == None
  {
    assert ORDERING[0] in ORDERING && ORDERING[1] in ORDERING && ORDERING[2] in ORDERING;
  }

  /** Where every bound compares, a version is refuted exactly when it compares at or past the fix, or below an
      introduced bound other than zero. */
  lemma RefutedIsPastOrBelow(ver: string, rng: Range, o: Comparators)
    requires rng.rangeType in ORDERING && ComparesWith(ver, rng.upperExclusive, rng.scheme)
    requires rng.upperExclusive != "" || (rng.lastAffected == "" && rng.lowerInclusive == "")
    ensures var fix := CompareVersions(ver, rng.upperExclusive, rng.scheme, o);
            var lower := CompareVersions(ver, rng.lowerInclusive, rng.scheme, o);
            OutsideRange(ver, rng, o) == Some(true) <==>
            || (fix.Some? && fix.value >= 0)
            || (rng.lowerInclusive != "" && rng.lowerInclusive != "0" && lower.Some? && lower.value < 0)
  {
    hide NpmVersion.Parse, NpmVersion.InRange, NpmVersion.Compare, NugetVersion.Parse, NugetVersion.Compare,
      NugetVersion.IsFloating, GoToolchain.ParseBound, GoToolchain.Compare, MavenVersion.CompareVersions;
  }

  /** What no comparison places is not refuted, by a range of any type: nothing below the fix, and at or above the
      introduced bound where one is stated. */
  lemma AffectedIsNotRefuted(ver: string, rng: Range, o: Comparators)
    requires rng.upperExclusive != "" && ComparesWith(ver, rng.upperExclusive, rng.scheme)
    requires var fix := CompareVersions(ver, rng.upperExclusive, rng.scheme, o); fix.Some? && fix.value < 0
    requires rng.lowerInclusive == "" || rng.lowerInclusive == "0"
             || (var lower := CompareVersions(ver, rng.lowerInclusive, rng.scheme, o); lower.Some? && lower.value >= 0)
    ensures OutsideRange(ver, rng, o) == if rng.rangeType in ORDERING then Some(false) else None
  {
    hide NpmVersion.Parse, NpmVersion.InRange, NpmVersion.Compare, NugetVersion.Parse, NugetVersion.Compare,
      NugetVersion.IsFloating, GoToolchain.ParseBound, GoToolchain.Compare, MavenVersion.CompareVersions;
  }

  /** An npm bound that is a range refutes exactly what it is read on and does not admit. */
  lemma NpmRangeRefutes(ver: string, rng: Range, o: Comparators)
    requires rng.rangeType in ORDERING && rng.scheme == "npm" && rng.upperExclusive != ""
    requires NpmVersion.Parse(rng.upperExclusive).None? && rng.lowerInclusive in ["", "0"]
    ensures OutsideRange(ver, rng, o) == Some(true) <==>
            NpmVersion.InRange(ver, rng.upperExclusive, true) == Some(false)
    ensures OutsideRange(ver, rng, o) == Some(false) <==>
            NpmVersion.InRange(ver, rng.upperExclusive, true) == Some(true)
  {
    hide NpmVersion.Parse, NpmVersion.InRange;
  }

  /** A range that states another bound but no fix has no top: it places a version by its introduced bound alone,
      and cannot where that does not compare. */
  lemma WithoutFix(ver: string, rng: Range, o: Comparators)
    requires rng.rangeType in ORDERING && rng.upperExclusive == ""
             && (rng.lastAffected != "" || rng.lowerInclusive != "")
    ensures OutsideRange(ver, rng, o) ==
            if rng.lowerInclusive == "" || rng.lowerInclusive == "0" then Some(false)
            else match CompareVersions(ver, rng.lowerInclusive, rng.scheme, o)
              case Some(c) => Some(c < 0)
              case None => None
  {
    hide CompareVersions;
  }

  /** A scheme that is none of the known ones is compared as a module's at the top, and not at all below. */
  lemma UnknownScheme(ver: string, rng: Range, o: Comparators)
    requires rng.scheme !in ["maven", "npm", "pypi", "nuget", "go-toolchain", "", "gomod"]
    requires rng.rangeType in ORDERING && rng.upperExclusive != ""
    ensures OutsideRange(ver, rng, o) == Some(true) <==>
            o.gomod(ver, rng.upperExclusive).Some? && o.gomod(ver, rng.upperExclusive).value >= 0
  {
  }
}
