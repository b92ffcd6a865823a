/**
 The version axis of disqualification (pipeline/stages.go, pipeline/affected_bounds.go): refute only
 what is proved not affected.
 */
module Disqualify {
  import opened GoStrings
  import opened AffectedRange
  import opened ToolchainFact
  import GoToolchain

  datatype Trust = FirstParty | OtherTrust

  datatype Reason = SymbolAbsent | VersionNotInRange | Insufficient

  datatype Verdict = Verdict(disqualified: bool, reason: Reason)

  /** The version set recorded for a package, and the ranges it is judged by when they are known. */
  datatype Judged = Judged(versions: seq<string>, complete: bool, ranges: seq<Range>, rangeKnown: bool)

  /** disqualify. */
  function Disqualify(rngs: seq<Range>, rangeKnown: bool, ver: string, verKnown: bool, symbolAbsent: bool, trust: Trust,
                      o: Comparators): Verdict {
    if trust != FirstParty then Verdict(false, Insufficient)
    else if symbolAbsent then Verdict(true, SymbolAbsent)
    else if rangeKnown && verKnown && OutsideRanges(ver, rngs, o) == Some(true) then Verdict(true, VersionNotInRange)
    else Verdict(false, Insufficient)
  }

  /** everyVersionOutside's meaning: a complete, non-empty set, each version refuted on its own. */
  ghost predicate EveryVersionRefuted(p: Judged, trust: Trust, o: Comparators) {
    && p.complete && p.versions != []
    && forall i :: 0 <= i < |p.versions| ==>
         Disqualify(p.ranges, p.rangeKnown, p.versions[i], true, false, trust, o).disqualified
  }

  method EveryVersionOutside(p: Judged, trust: Trust, o: Comparators) returns (r: bool)
    ensures r <==> EveryVersionRefuted(p, trust, o)
  {
    hide OutsideRanges;
    if !p.complete || |p.versions| == 0 {
      return false;
    }
    for i := 0 to |p.versions|
      invariant forall k :: 0 <= k < i ==>
                  Disqualify(p.ranges, p.rangeKnown, p.versions[k], true, false, trust, o).disqualified
    {
      var v := Disqualify(p.ranges, p.rangeKnown, p.versions[i], true, false, trust, o);
      if !v.disqualified {
        return false;
      }
    }
    return true;
  }

  /** What a version refutation takes, spelled out over every package, version and range. */
  ghost predicate AllProvedOutside(p: Judged, o: Comparators) {
    && p.complete && p.versions != [] && p.rangeKnown && p.ranges != []
    && forall v, r :: v in p.versions && r in p.ranges ==> OutsideRange(v, r, o) == Some(true)
  }

  lemma RefutedMeansProved(p: Judged, trust: Trust, o: Comparators)
    ensures EveryVersionRefuted(p, trust, o) <==> trust == FirstParty && AllProvedOutside(p, o)
  {
    hide OutsideRanges, OutsideRange;
    forall v ensures OutsideRanges(v, p.ranges, o) == Some(true) <==> ProvedOutside(v, p.ranges, o) {
      OutsideRangesMeaning(v, p.ranges, o);
    }
    if trust == FirstParty && AllProvedOutside(p, o) {
      forall i | 0 <= i < |p.versions|
        ensures Disqualify(p.ranges, p.rangeKnown, p.versions[i], true, false, trust, o).disqualified
      {
        assert ProvedOutside(p.versions[i], p.ranges, o);
      }
    }
    if EveryVersionRefuted(p, trust, o) {
      var i := 0;
      assert Disqualify(p.ranges, p.rangeKnown, p.versions[i], true, false, trust, o).disqualified;
      forall v, r | v in p.versions && r in p.ranges ensures OutsideRange(v, r, o) == Some(true) {
        var k :| 0 <= k < |p.versions| && p.versions[k] == v;
        assert ProvedOutside(v, p.ranges, o);
      }
    }
  }

  /**
   disqualifyEvery: a version refutation holds exactly with first-party trust, when no symbol already
   decides, the axis is known, and every version of the selected package and of every other package
   present is proved outside every one of its own ranges.
   */
  method DisqualifyEvery(selected: Judged, axisKnown: bool, others: seq<Judged>, symbolAbsent: bool, trust: Trust,
                         o: Comparators)
    returns (v: Verdict)
    ensures v == Verdict(true, VersionNotInRange) <==>
              && trust == FirstParty && !symbolAbsent && axisKnown
              && AllProvedOutside(selected, o)
              && forall i :: 0 <= i < |others| ==> AllProvedOutside(others[i], o)
    ensures v == Verdict(true, SymbolAbsent) <==> trust == FirstParty && symbolAbsent
    ensures !v.disqualified <==> v == Verdict(false, Insufficient)
  {
    hide OutsideRanges, AllProvedOutside, EveryVersionRefuted;
    v := Disqualify(selected.ranges, selected.rangeKnown, "", false, symbolAbsent, trust, o);
    if v.disqualified || trust != FirstParty {
      return;
    }
    var every := false;
    if axisKnown {
      every := EveryVersionOutside(selected, trust, o);
      RefutedMeansProved(selected, trust, o);
    }
    if !every {
      return Verdict(false, Insufficient);
    }
    for i := 0 to |others|
      invariant forall k :: 0 <= k < i ==> AllProvedOutside(others[k], o)
    {
      every := EveryVersionOutside(others[i], trust, o);
      RefutedMeansProved(others[i], trust, o);
      if !every {
        return Verdict(false, Insufficient);
      }
    }
    return Verdict(true, VersionNotInRange);
  }

  // ----- merging the entries of one package -----

  datatype Package = Package(module_: string, coordinate: string, purl: string, ranges: seq<Range>,
                             symbols: seq<string>)

  predicate Names(p: Package, module_: string, coordinate: string) {
    (module_ != "" && p.module_ == module_) || (coordinate != "" && p.coordinate == coordinate)
  }

  function Matching(pkgs: seq<Package>, module_: string, coordinate: string): (r: seq<Package>)
    ensures forall p :: p in r <==>
              p in pkgs && ((module_ != "" && p.module_ == module_) || (coordinate != "" && p.coordinate == coordinate))
  {
    if pkgs == [] then []
    else if Names(pkgs[|pkgs| - 1], module_, coordinate)
    then Matching(pkgs[..|pkgs| - 1], module_, coordinate) + [pkgs[|pkgs| - 1]]
    else Matching(pkgs[..|pkgs| - 1], module_, coordinate)
  }

  function AllRanges(pkgs: seq<Package>): (r: seq<Range>)
    ensures forall rng :: rng in r <==> exists p :: p in pkgs && rng in p.ranges
  {
    if pkgs == [] then []
    else
      assert pkgs == pkgs[..|pkgs| - 1] + [pkgs[|pkgs| - 1]];
      AllRanges(pkgs[..|pkgs| - 1]) + pkgs[|pkgs| - 1].ranges
  }

  /** The ranges of one package: the union of its entries', or none when an entry states none. */
  ghost function MergedRanges(named: seq<Package>): seq<Range> {
    if exists p :: p in named && p.ranges == [] then [] else AllRanges(named)
  }

  lemma MatchingStep(pkgs: seq<Package>, i: nat, module_: string, coordinate: string)
    requires i < |pkgs|
    ensures Matching(pkgs[..i + 1], module_, coordinate) ==
            if Names(pkgs[i], module_, coordinate) then Matching(pkgs[..i], module_, coordinate) + [pkgs[i]]
            else Matching(pkgs[..i], module_, coordinate)
    ensures Matching([], module_, coordinate) == []
  {
    assert pkgs[..i + 1][..i] == pkgs[..i] && pkgs[..i + 1][i] == pkgs[i];
  }

  lemma AllRangesStep(before: seq<Package>, p: Package)
    ensures AllRanges(before + [p]) == AllRanges(before) + p.ranges && AllRanges([]) == []
  {
    assert (before + [p])[..|before|] == before;
  }

  lemma NothingMerged(pkgs: seq<Package>, module_: string, coordinate: string)
    ensures Matching(pkgs[..0], module_, coordinate) == [] && AllRanges([]) == []
  {
  }

  /** affectedPackageNamed: the union of the matching entries' ranges and symbols, each dropped
      altogether when one entry states none. */
  method AffectedPackageNamed(pkgs: seq<Package>, module_: string, coordinate: string) returns (r: Option<Package>)
    ensures var named := Matching(pkgs, module_, coordinate);
            && (r.None? <==> named == [])
            && (r.Some? ==>
                  && r.value.module_ == named[0].module_ && r.value.coordinate == named[0].coordinate
                  && r.value.purl == named[0].purl
                  && r.value.ranges == MergedRanges(named)
                  && (if exists p :: p in named && p.symbols == [] then r.value.symbols == []
                      else forall s :: s in r.value.symbols <==> exists p :: p in named && s in p.symbols))
  {
    hide Matching, AllRanges, Names;
    var out := Package("", "", "", [], []);
    var found, rangeless, blind := false, false, false;
    NothingMerged(pkgs, module_, coordinate);
    for i := 0 to |pkgs|
      invariant found <==> Matching(pkgs[..i], module_, coordinate) != []
      invariant rangeless <==> exists p :: p in Matching(pkgs[..i], module_, coordinate) && p.ranges == []
      invariant blind <==> exists p :: p in Matching(pkgs[..i], module_, coordinate) && p.symbols == []
      invariant out.ranges == AllRanges(Matching(pkgs[..i], module_, coordinate))
      invariant forall s :: s in out.symbols <==>
                exists p :: p in Matching(pkgs[..i], module_, coordinate) && s in p.symbols
      invariant found ==>
                  var first := Matching(pkgs[..i], module_, coordinate)[0];
                  out.module_ == first.module_ && out.coordinate == first.coordinate && out.purl == first.purl
    {
      var p := pkgs[i];
      ghost var before := Matching(pkgs[..i], module_, coordinate);
      MatchingStep(pkgs, i, module_, coordinate);
      AllRangesStep(before, p);
      if !Names(p, module_, coordinate) {
        continue;
      }
      ghost var after := before + [p];
      assert p in after && forall q :: q in after <==> q in before || q == p;
      rangeless := rangeless || |p.ranges| == 0;
      blind := blind || |p.symbols| == 0;
      if !found {
        out, found := p, true;
        assert after == [p] && AllRanges(before) + p.ranges == p.ranges;
        continue;
      }
      var symbols := MergeSymbols(out.symbols, p.symbols);
      out := out.(ranges := out.ranges + p.ranges, symbols := symbols);
    }
    assert pkgs[..|pkgs|] == pkgs;
    if !found {
      return None;
    }
    if rangeless {
      out := out.(ranges := []);
    }
    if blind {
      out := out.(symbols := []);
    }
    return Some(out);
  }

  method MergeSymbols(have: seq<string>, more: seq<string>) returns (all: seq<string>)
    ensures have <= all
    ensures forall s :: s in all <==> s in have || s in more
  {
    all := have;
    for i := 0 to |more|
      invariant have <= all
      invariant forall s :: s in all <==> s in have || s in more[..i]
    {
      if more[i] !in all {
        all := all + [more[i]];
      }
    }
  }

  /** Judging the merged entry never refutes a version that some entry of the package, on its own
      ranges, does not. */
  lemma MergeNeverRefutesMore(ver: string, named: seq<Package>, entry: Package, o: Comparators)
    requires entry in named
    requires OutsideRanges(ver, MergedRanges(named), o) == Some(true)
    ensures entry.ranges != [] && OutsideRanges(ver, entry.ranges, o) == Some(true)
  {
    hide OutsideRange;
    OutsideRangesMeaning(ver, MergedRanges(named), o);
    RefutationIsAntitone(ver, entry.ranges, MergedRanges(named), o);
  }

  // ----- ranges read from a floor -----

  /** rangesForToolchainFloor: a minimum drops the lower bounds. */
  function FloorRanges(rngs: seq<Range>, bound: Bound): (r: seq<Range>)
    ensures |r| == |rngs|
    ensures forall i :: 0 <= i < |rngs| ==> r[i] == if bound == Minimum then rngs[i].(lowerInclusive := "") else rngs[i]
  {
    if bound != Minimum then rngs
    else seq(|rngs|, i requires 0 <= i < |rngs| => rngs[i].(lowerInclusive := ""))
  }

  method RangesForToolchainFloor(rngs: seq<Range>, bound: Bound) returns (out: seq<Range>)
    ensures out == FloorRanges(rngs, bound)
  {
    if bound != Minimum {
      return rngs;
    }
    out := [];
    for i := 0 to |rngs|
      invariant |out| == i && forall k :: 0 <= k < i ==> out[k] == rngs[k].(lowerInclusive := "")
    {
      out := out + [rngs[i].(lowerInclusive := "")];
    }
  }

  /** A floor proved outside a range without its lower bound places every toolchain at or above it
      outside the range with that bound. */
  lemma FloorPlacesAllAbove(floor: string, ver: string, rng: Range, o: Comparators)
    requires rng.scheme == "go-toolchain"
    requires GoToolchain.ParseBound(floor).Some? && GoToolchain.ParseBound(ver).Some?
    requires GoToolchain.Compare(GoToolchain.ParseBound(floor).value, GoToolchain.ParseBound(ver).value) <= 0
    requires OutsideRange(floor, rng.(lowerInclusive := ""), o) == Some(true)
    ensures OutsideRange(ver, rng, o) == Some(true)
  {
    hide GoToolchain.ParseBound, GoToolchain.Compare, CompareVersions;
    var bare := rng.(lowerInclusive := "");
    assert OutsideUpper(floor, bare, o) == Some(true);
    EmptyBoundProvesNothing(floor);
    GoToolchain.OutsideIsMonotone(floor, ver, rng.upperExclusive);
    assert OutsideUpper(ver, rng, o) == Some(true);
  }

  lemma EmptyBoundProvesNothing(ver: string)
    ensures GoToolchain.OutsideUpper(ver, "").None?
  {
    hide GoToolchain.ParseBound;
    EmptyBound();
  }

  lemma EmptyBound()
    ensures GoToolchain.ParseBound("").None?
  {
  }

  /**
   The whole axis for a toolchain subject. The fact resolved from the inputs is judged on the ranges
   its strength allows; if that refutes, every toolchain that can have built the module is outside
   every range the advisory states, lower bounds included. An exact fact is taken to be true of the
   build; a minimum needs nothing.
   */
  lemma ToolchainRefutationIsSound(in_: Inputs, t: GoToolchain.Version, rngs: seq<Range>, o: Comparators)
    requires Builds(in_, t)
    requires t.major <= MAX_INT64 && t.minor <= MAX_INT64 && t.patch <= MAX_INT64
    requires forall r :: r in rngs ==> r.scheme == "go-toolchain"
    requires var fact := ResolveFact(in_);
             && (fact.bound == Exact ==> fact.version == GoToolchain.Format(t))
             && AllProvedOutside(Judged([fact.version], true, FloorRanges(rngs, fact.bound), true), o)
    ensures forall r :: r in rngs ==> OutsideRange(GoToolchain.Format(t), r, o) == Some(true)
  {
    hide OutsideRange, GoToolchain.ParseBound, GoToolchain.ParseVersion, GoToolchain.Compare, GoToolchain.Format,
      ResolveFact, Builds;
    var fact := ResolveFact(in_);
    FactIsSound(in_, t);
    GoToolchain.FormatRoundTrip(t) by { assert t.rank == None by { BuildsRelease(in_, t); } }
    var judged := FloorRanges(rngs, fact.bound);
    forall r | r in rngs ensures OutsideRange(GoToolchain.Format(t), r, o) == Some(true) {
      var i :| 0 <= i < |rngs| && rngs[i] == r;
      assert judged[i] in judged && fact.version in [fact.version];
      match fact.bound {
        case Minimum => FloorPlacesAllAbove(fact.version, GoToolchain.Format(t), r, o);
        case Exact =>
        case NoBound => UnresolvedProvesNothing(r, o);
      }
    }
  }

  lemma BuildsRelease(in_: Inputs, t: GoToolchain.Version)
    requires Builds(in_, t)
    ensures t.rank == None
  {
  }

  lemma UnresolvedProvesNothing(r: Range, o: Comparators)
    requires r.scheme == "go-toolchain"
    ensures OutsideRange("", r, o) != Some(true)
  {
    hide GoToolchain.ParseBound, MavenVersion.CompareVersions, NpmVersion.DisqualifyOutside, NugetVersion.OutsideUpper;
    EmptyBound();
  }

  /** The first matching entry is the first listed. */
  lemma {:induction false} FirstMatching(pkgs: seq<Package>, module_: string, coordinate: string) returns (k: nat)
    requires Matching(pkgs, module_, coordinate) != []
    ensures k < |pkgs| && pkgs[k] == Matching(pkgs, module_, coordinate)[0]
    ensures pkgs[k] in Matching(pkgs, module_, coordinate)
    ensures forall i :: 0 <= i < k ==> pkgs[i] !in Matching(pkgs, module_, coordinate)
  {
    hide Names;
    var less := pkgs[..|pkgs| - 1];
    if Matching(less, module_, coordinate) == [] {
      k := |pkgs| - 1;
      forall i | 0 <= i < k ensures pkgs[i] !in Matching(pkgs, module_, coordinate) {
        assert pkgs[i] in less && pkgs[i] !in Matching(less, module_, coordinate);
      }
    } else {
      k := FirstMatching(less, module_, coordinate);
      forall i | 0 <= i < k ensures pkgs[i] !in Matching(pkgs, module_, coordinate) {
        assert pkgs[i] in less && pkgs[i] !in Matching(less, module_, coordinate);
      }
    }
  }
}
