/** An advisory's stated ranges projected into the form that is judged, and the legacy ranges added to them
    (pipeline/stages.go, pipeline/affected_bounds.go). */
module AdvisoryRanges {
  import opened GoStrings
  import opened AffectedRange
  import L = LegacyRanges

  datatype Stated = Stated(introduced: string, fixed: string, lastAffected: string, rangeType: string)

  function Bounds(rs: seq<Stated>): (r: seq<L.Range>)
    ensures |r| == |rs| && forall i :: 0 <= i < |rs| ==>
            r[i] == L.Range(rs[i].introduced, rs[i].fixed, rs[i].lastAffected)
  {
    seq(|rs|, i requires 0 <= i < |rs| => L.Range(rs[i].introduced, rs[i].fixed, rs[i].lastAffected))
  }

  /** An unbounded start is spelled "0", or "0.0.0". */
  function Projected(r: Stated, scheme: string): Range {
    var lower := if r.introduced == "0" || r.introduced == "0.0.0" then "" else r.introduced;
    Range(r.fixed, scheme, lower, r.lastAffected, r.rangeType)
  }

  function ProjectAll(rs: seq<Stated>, scheme: string): (r: seq<Range>)
    ensures |r| == |rs| && forall i :: 0 <= i < |rs| ==> r[i] == Projected(rs[i], scheme)
  {
    seq(|rs|, i requires 0 <= i < |rs| => Projected(rs[i], scheme))
  }

  /** buildAffectedRanges' result: a range for each stated one, else one for the single bound, else none. */
  function Built(rs: seq<Stated>, upperExclusive: string, scheme: string): seq<Range> {
    if rs != [] then ProjectAll(rs, scheme)
    else if upperExclusive != "" then [Range(upperExclusive, scheme, "", "", "")]
    else []
  }

  method BuildAffectedRanges(rs: seq<Stated>, upperExclusive: string, scheme: string) returns (out: seq<Range>)
    ensures out == Built(rs, upperExclusive, scheme)
    ensures rs != [] ==> |out| == |rs| && forall i :: 0 <= i < |rs| ==> out[i] == Projected(rs[i], scheme)
    ensures rs == [] && upperExclusive == "" ==> out == []
    ensures rs == [] && upperExclusive != "" ==>
            |out| == 1 && out[0].upperExclusive == upperExclusive && out[0].scheme == scheme
            && out[0].lowerInclusive == "" && out[0].lastAffected == "" && out[0].rangeType == ""
  {
    out := [];
    if |rs| > 0 {
      for i := 0 to |rs|
        invariant out == ProjectAll(rs[..i], scheme)
      {
        var r := rs[i];
        var ar := Range(r.fixed, scheme, "", r.lastAffected, r.rangeType);
        if r.introduced != "0" && r.introduced != "0.0.0" {
          ar := ar.(lowerInclusive := r.introduced);
        }
        out := out + [ar];
      }
      assert rs[..|rs|] == rs;
      return;
    }
    if upperExclusive != "" {
      return [Range(upperExclusive, scheme, "", "", "")];
    }
  }

  predicate Boundless(r: Range) {
    r.upperExclusive == "" && r.lastAffected == "" && r.lowerInclusive == ""
  }

  /** validAffectedRanges: one boundless range withholds the whole set. */
  method ValidAffectedRanges(rngs: seq<Range>) returns (r: Option<seq<Range>>)
    ensures r.Some? <==> rngs != [] && forall k :: 0 <= k < |rngs| ==>
              rngs[k].upperExclusive != "" || rngs[k].lastAffected != "" || rngs[k].lowerInclusive != ""
    ensures r.Some? ==> r.value == rngs
  {
    if |rngs| == 0 {
      return None;
    }
    for i := 0 to |rngs|
      invariant forall k :: 0 <= k < i ==> !Boundless(rngs[k])
    {
      if Boundless(rngs[i]) {
        return None;
      }
    }
    return Some(rngs);
  }

  // ----- the legacy ranges -----

  /** An affected package: its identity and its own ranges. */
  datatype Element = Element(purl: string, coordinate: string, ranges: seq<Stated>, upperExclusive: string)

  /** The advisory's scalar block and its legacy ranges. */
  datatype Scalar = Scalar(purl: string, coordinate: string, ranges: seq<Stated>)

  predicate DescribesPrimary(pkg: Element, facts: Scalar) {
    (pkg.purl != "" && pkg.purl == facts.purl) || (pkg.coordinate != "" && pkg.coordinate == facts.coordinate)
  }

  /** The legacy ranges join the element's. */
  predicate Joins(pkg: Element, facts: Scalar) {
    facts.ranges != [] && DescribesPrimary(pkg, facts) && L.Disagree(Bounds(pkg.ranges), Bounds(facts.ranges))
  }

  function WithLegacy(pkg: Element, facts: Scalar, pkgScheme: string, scheme: string): seq<Range> {
    Built(pkg.ranges, pkg.upperExclusive, pkgScheme) + if Joins(pkg, facts) then Built(facts.ranges, "", scheme) else []
  }

  method WithDisagreeingLegacyRanges(pkg: Element, facts: Scalar, pkgScheme: string, scheme: string)
    returns (r: seq<Range>)
    ensures r == WithLegacy(pkg, facts, pkgScheme, scheme)
    ensures (pkg.purl == "" || pkg.purl != facts.purl)
              && (pkg.coordinate == "" || pkg.coordinate != facts.coordinate) ==>
              r == Built(pkg.ranges, pkg.upperExclusive, pkgScheme)
    ensures pkg.purl == facts.purl != "" || pkg.coordinate == facts.coordinate != "" ==>
              r == Built(pkg.ranges, pkg.upperExclusive, pkgScheme) +
                   if facts.ranges != [] && L.Disagree(Bounds(pkg.ranges), Bounds(facts.ranges))
                   then Built(facts.ranges, "", scheme) else []
  {
    hide L.Disagree, Built;
    r := BuildAffectedRanges(pkg.ranges, pkg.upperExclusive, pkgScheme);
    if |facts.ranges| == 0 || !DescribesPrimary(pkg, facts) {
      return;
    }
    var disagree := L.LegacyRangesDisagree(Bounds(pkg.ranges), Bounds(facts.ranges));
    if !disagree {
      return;
    }
    var more := BuildAffectedRanges(facts.ranges, "", scheme);
    return r + more;
  }

  /** A version is refuted exactly when every range of the element and, once they joined, every legacy range
      places it outside: where they disagree the package admits what either one admits. */
  lemma RefutationNeedsBoth(ver: string, pkg: Element, facts: Scalar, pkgScheme: string, scheme: string, o: Comparators)
    ensures OutsideRanges(ver, WithLegacy(pkg, facts, pkgScheme, scheme), o) == Some(true) <==>
              && WithLegacy(pkg, facts, pkgScheme, scheme) != []
              && (forall r :: r in Built(pkg.ranges, pkg.upperExclusive, pkgScheme) ==>
                   OutsideRange(ver, r, o) == Some(true))
              && (Joins(pkg, facts) ==> forall r :: r in Built(facts.ranges, "", scheme) ==>
                   OutsideRange(ver, r, o) == Some(true))
  {
    hide OutsideRange, L.Disagree, Built;
    OutsideRangesMeaning(ver, WithLegacy(pkg, facts, pkgScheme, scheme), o);
  }

  // ----- a stated range, judged -----

  /** A projected range refutes what is at or past the fix stated, or below the introduced bound unless that is one
      of the spellings of zero. */
  lemma StatedRefutes(ver: string, r: Stated, scheme: string, o: Comparators)
    requires r.rangeType in ORDERING && r.fixed != "" && ComparesWith(ver, r.fixed, scheme)
    ensures var fix := CompareVersions(ver, r.fixed, scheme, o);
            var lower := CompareVersions(ver, r.introduced, scheme, o);
            OutsideRange(ver, Projected(r, scheme), o) == Some(true) <==>
            || (fix.Some? && fix.value >= 0)
            || (r.introduced != "" && r.introduced != "0" && r.introduced != "0.0.0" && lower.Some? && lower.value < 0)
  {
    hide CompareVersions, OutsideRange, ComparesWith;
    RefutedIsPastOrBelow(ver, Projected(r, scheme), o);
  }

  /** Without a fix the last affected version says nothing, and the introduced bound alone places a version. */
  lemma StatedWithoutFix(ver: string, r: Stated, scheme: string, o: Comparators)
    requires r.rangeType in ORDERING && r.fixed == "" && r.lastAffected != ""
    ensures OutsideRange(ver, Projected(r, scheme), o) ==
            if r.introduced == "" || r.introduced == "0" || r.introduced == "0.0.0" then Some(false)
            else match CompareVersions(ver, r.introduced, scheme, o)
              case Some(c) => Some(c < 0)
              case None => None
  {
    hide CompareVersions, OutsideRange;
    WithoutFix(ver, Projected(r, scheme), o);
  }
}
