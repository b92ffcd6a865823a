/**
 When an element that agrees with the legacy ranges speaks for them: whether no version the legacy
 ranges admit is refuted by the element's own (withDisagreeingLegacyRanges, pipeline/affected_bounds.go).
 */
module LegacyAgreement {
  import opened GoStrings
  import opened AffectedRange
  import opened AdvisoryRanges
  import opened SchemeTops
  import L = LegacyRanges

  ghost predicate Refutes(ver: string, rs: seq<Stated>, scheme: string, o: Comparators) {
    OutsideRanges(ver, Built(rs, "", scheme), o) == Some(true)
  }

  predicate AllOrderable(rs: seq<Stated>) {
    forall r :: r in rs ==> Orderable(r.rangeType)
  }

  /** The legacy ranges with the introduced bounds their projection lost: those of the elements they pair with. */
  ghost predicate RestoredBy(elem: seq<Stated>, legacy: seq<Stated>, restored: seq<Stated>, p: seq<nat>) {
    && L.Pairing(Bounds(elem), Bounds(legacy), {}, p) && |elem| == |legacy| == |restored|
    && forall k :: 0 <= k < |legacy| ==> restored[k] == legacy[k].(introduced := elem[p[k]].introduced)
  }

  ghost predicate Restored(elem: seq<Stated>, legacy: seq<Stated>, restored: seq<Stated>) {
    exists p :: RestoredBy(elem, legacy, restored, p)
  }

  /** Agreement lets the lost bounds be restored; legacy ranges that state introduced lost none. */
  lemma AgreementRestores(elem: seq<Stated>, legacy: seq<Stated>) returns (restored: seq<Stated>)
    requires !L.Disagree(Bounds(elem), Bounds(legacy))
    ensures Restored(elem, legacy, restored)
    ensures (forall l :: l in legacy ==> l.introduced != "") ==> restored == legacy
  {
    var p := L.AgreementIsAPairing(Bounds(elem), Bounds(legacy), {});
    forall k | 0 <= k < |legacy|
      ensures p[k] < |elem| && (legacy[k].introduced != "" ==> legacy[k].introduced == elem[p[k]].introduced)
    {
      assert L.Pairs(Bounds(elem)[p[k]], Bounds(legacy)[k]);
    }
    restored := seq(|legacy|, k requires 0 <= k < |legacy| => legacy[k].(introduced := elem[p[k]].introduced));
    assert RestoredBy(elem, legacy, restored, p);
    forall k | 0 <= k < |legacy| && legacy[k].introduced != "" ensures restored[k] == legacy[k] {
    }
    assert (forall l :: l in legacy ==> l.introduced != "") ==> forall k :: 0 <= k < |legacy| ==> legacy[k] in legacy;
  }

  /** Two ranges with the same bounds, up to the name of one axis and the type, place the same versions outside
      if both types order versions. */
  lemma SameBoundsSameProof(ver: string, e: Range, l: Range, o: Comparators)
    requires SameAxis(e.scheme, l.scheme) && Orderable(l.rangeType)
    requires e == l.(scheme := e.scheme, rangeType := e.rangeType)
    ensures OutsideRange(ver, e, o) == Some(true) ==> OutsideRange(ver, l, o) == Some(true)
  {
    hide MavenVersion.CompareVersions, NpmVersion.DisqualifyOutside, NugetVersion.OutsideUpper,
      GoToolchain.OutsideUpper, NpmVersion.Parse, NugetVersion.Parse, GoToolchain.ParseBound;
  }

  /** Sufficient for every scheme and every bound. */
  lemma SameAxisAndTypesSuffice(ver: string, elem: seq<Stated>, legacy: seq<Stated>, restored: seq<Stated>, s: string,
                                t: string, o: Comparators)
    requires legacy != [] && Restored(elem, legacy, restored)
    requires AllOrderable(elem) ==> SameAxis(s, t) && AllOrderable(legacy)
    ensures Refutes(ver, elem, s, o) ==> Refutes(ver, restored, t, o)
  {
    hide OutsideRange, SameAxis, Orderable;
    var p :| RestoredBy(elem, legacy, restored, p);
    if Refutes(ver, elem, s, o) {
      OutsideRangesMeaning(ver, Built(elem, "", s), o);
      OutsideRangesMeaning(ver, Built(restored, "", t), o);
      forall i | 0 <= i < |elem|
        ensures Orderable(elem[i].rangeType) && OutsideRange(ver, Projected(elem[i], s), o) == Some(true) {
        assert Built(elem, "", s)[i] in Built(elem, "", s);
        RefutingIsOrderable(ver, Projected(elem[i], s), o);
      }
      forall k | 0 <= k < |restored| ensures OutsideRange(ver, Projected(restored[k], t), o) == Some(true) {
        assert L.Pairs(Bounds(elem)[p[k]], Bounds(legacy)[k]);
        assert legacy[k] in legacy;
        SameBoundsSameProof(ver, Projected(elem[p[k]], s), Projected(restored[k], t), o);
      }
    }
  }

  lemma RefutingIsOrderable(ver: string, r: Range, o: Comparators)
    requires OutsideRange(ver, r, o) == Some(true)
    ensures Orderable(r.rangeType)
  {
    hide Orderable, BelowIntroduced, AboveTop;
  }

  // ----- necessary too -----

  /** ver is at or past each of the bounds. */
  ghost predicate IsPast(s: string, ver: string, bounds: seq<string>, o: Comparators) {
    forall r: Range :: r.scheme == s && r.upperExclusive in bounds ==> OutsideUpper(ver, r, o) == Some(true)
  }

  /** Some version is past all the bounds under the one scheme, and on another axis not one the other reads. */
  ghost predicate Separated(s: string, t: string, bounds: seq<string>, o: Comparators) {
    exists ver :: IsPast(s, ver, bounds, o) && (SameAxis(s, t) || Unread(t, ver, o))
  }

  /** The schemes whose parsers are modelled here. */
  const PARSED: seq<string> := ["maven", "npm", "nuget", "go-toolchain"]

  /** Under each of them a version is past any bounds it reads, and none of the others reads that version. */
  lemma PastAll(s: string, bounds: seq<string>, o: Comparators) returns (ver: string)
    requires s in PARSED && forall i :: 0 <= i < |bounds| ==> Readable(s, bounds[i])
    ensures IsPast(s, ver, bounds, o)
    ensures forall t :: t in PARSED && t != s ==> Unread(t, ver, o)
  {
    hide NpmVersion.Parse, NugetVersion.Parse, GoToolchain.ParseBound, MavenVersion.GrammarOK,
      MavenVersion.CompareVersions, NpmVersion.DisqualifyOutside, NugetVersion.OutsideUpper,
      GoToolchain.OutsideUpper, Itoa, GoTop, NpmTop, NugetTop, Lead;
    if s == "maven" {
      var n := PastLeads(bounds);
      ver := Itoa(n);
      NumberUnread(n);
      forall b | b in bounds ensures MavenVersion.CompareVersions(ver, b) == Some(1) {
        var i :| 0 <= i < |bounds| && bounds[i] == b;
        NumberIsPast(n, b);
      }
    } else if s == "npm" {
      ver := NpmTop();
      NpmTopReads();
      forall b | b in bounds ensures NpmVersion.DisqualifyOutside(ver, b) == Some(true) { NpmTopIsPast(b); }
    } else if s == "nuget" {
      ver := NugetTop();
      NugetTopReads();
      forall b | b in bounds ensures NugetVersion.OutsideUpper(ver, b) == Some(true) { NugetTopIsPast(b); }
    } else {
      ver := GoTop();
      GoTopReads();
      forall b | b in bounds ensures GoToolchain.OutsideUpper(ver, b) == Some(true) { GoTopIsPast(b); }
    }
  }

  /** So any two of them are separated, whatever the comparators given from outside. */
  lemma ParsedAreSeparated(s: string, t: string, bounds: seq<string>, o: Comparators)
    requires s in PARSED && t in PARSED && forall i :: 0 <= i < |bounds| ==> Readable(s, bounds[i])
    ensures Separated(s, t, bounds, o)
  {
    hide Readable, Unread, IsPast;
    var ver := PastAll(s, bounds, o);
  }

  function FixedBounds(rs: seq<Stated>): (r: seq<string>)
    ensures |r| == |rs| && forall i :: 0 <= i < |rs| ==> r[i] == rs[i].fixed
  {
    seq(|rs|, i requires 0 <= i < |rs| => rs[i].fixed)
  }

  lemma PastAllRefutes(ver: string, elem: seq<Stated>, s: string, o: Comparators)
    requires elem != [] && AllOrderable(elem) && forall e :: e in elem ==> e.fixed != ""
    requires IsPast(s, ver, FixedBounds(elem), o)
    ensures Refutes(ver, elem, s, o)
  {
    hide OutsideUpper, Orderable, CompareVersions;
    forall i | 0 <= i < |elem| ensures OutsideRange(ver, Projected(elem[i], s), o) == Some(true) {
      assert elem[i] in elem && FixedBounds(elem)[i] in FixedBounds(elem);
      assert AboveTop(ver, Projected(elem[i], s), o) == Some(true);
    }
    hide OutsideRange;
    OutsideRangesMeaning(ver, Built(elem, "", s), o);
  }

  lemma OtherTypeOrAxisRefutesNot(ver: string, legacy: seq<Stated>, restored: seq<Stated>, t: string, o: Comparators,
                                  k: nat)
    requires k < |legacy| == |restored| && restored[k].rangeType == legacy[k].rangeType
    requires !Orderable(legacy[k].rangeType) || (Recognized(t) && Unread(t, ver, o))
    ensures !Refutes(ver, restored, t, o)
  {
    hide Recognized, Unread, OutsideRange, Orderable;
    var r := Projected(restored[k], t);
    if Orderable(r.rangeType) {
      UnreadProvesNothing(ver, r, o);
    } else if OutsideRange(ver, r, o) == Some(true) {
      RefutingIsOrderable(ver, r, o);
    }
    OutsideRangesMeaning(ver, Built(restored, "", t), o);
    assert Built(restored, "", t)[k] == r && r in Built(restored, "", t);
  }

  /**
   Of agreeing ranges the element refutes nothing the legacy ranges admit, their lost lower bounds
   restored, exactly when one of its types orders no versions (it then refutes nothing at all), or
   both sides are on one version axis and every legacy type orders versions. So the types of the
   legacy ranges and the two schemes, which the pairing does not compare, are what can go wrong.
   */
  lemma AgreementIsExact(elem: seq<Stated>, legacy: seq<Stated>, restored: seq<Stated>, s: string, t: string,
                         o: Comparators)
    requires Recognized(s) && Recognized(t) && legacy != [] && Restored(elem, legacy, restored)
    requires (forall e :: e in elem ==> e.fixed != "") && Separated(s, t, FixedBounds(elem), o)
    ensures (forall ver :: Refutes(ver, elem, s, o) ==> Refutes(ver, restored, t, o)) <==>
            (AllOrderable(elem) ==> SameAxis(s, t) && AllOrderable(legacy))
  {
    hide Refutes, Recognized, SameAxis, Orderable, IsPast, Unread, Bounds, L.Pairing;
    if AllOrderable(elem) ==> SameAxis(s, t) && AllOrderable(legacy) {
      forall ver ensures Refutes(ver, elem, s, o) ==> Refutes(ver, restored, t, o) {
        SameAxisAndTypesSuffice(ver, elem, legacy, restored, s, t, o);
      }
    } else {
      var p :| RestoredBy(elem, legacy, restored, p);
      var ver :| IsPast(s, ver, FixedBounds(elem), o) && (SameAxis(s, t) || Unread(t, ver, o));
      PastAllRefutes(ver, elem, s, o);
      if SameAxis(s, t) {
        var l :| l in legacy && !Orderable(l.rangeType);
        var k :| 0 <= k < |legacy| && legacy[k] == l;
        OtherTypeOrAxisRefutesNot(ver, legacy, restored, t, o, k);
      } else {
        OtherTypeOrAxisRefutesNot(ver, legacy, restored, t, o, 0);
      }
    }
  }

  /** Between Maven, npm, NuGet and toolchain versions nothing is asked but that the element's bounds can be read. */
  lemma AgreementIsExactForParsed(elem: seq<Stated>, legacy: seq<Stated>, restored: seq<Stated>, s: string, t: string,
                                  o: Comparators)
    requires s in PARSED && t in PARSED && legacy != [] && Restored(elem, legacy, restored)
    requires forall e :: e in elem ==> Readable(s, e.fixed)
    ensures (forall ver :: Refutes(ver, elem, s, o) ==> Refutes(ver, restored, t, o)) <==>
            (AllOrderable(elem) ==> s == t && AllOrderable(legacy))
  {
    hide Refutes, Readable, Orderable, Separated, Restored;
    forall e | e in elem ensures e.fixed != "" { ReadableIsStated(s, e.fixed); }
    ParsedAreSeparated(s, t, FixedBounds(elem), o);
    AgreementIsExact(elem, legacy, restored, s, t, o);
  }

  lemma ReadableIsStated(s: string, bound: string)
    requires Readable(s, bound)
    ensures bound != ""
  {
  }

  /** In the source's own terms, for legacy ranges that state introduced. */
  lemma AgreementAdmitsWhatTheLegacyRangesAdmit(pkg: Element, facts: Scalar, pkgScheme: string, scheme: string,
                                                o: Comparators)
    requires Recognized(pkgScheme) && Recognized(scheme)
    requires facts.ranges != [] && !L.Disagree(Bounds(pkg.ranges), Bounds(facts.ranges))
    requires forall l :: l in facts.ranges ==> l.introduced != ""
    requires forall e :: e in pkg.ranges ==> e.fixed != ""
    requires Separated(pkgScheme, scheme, FixedBounds(pkg.ranges), o)
    ensures (forall ver :: OutsideRanges(ver, WithLegacy(pkg, facts, pkgScheme, scheme), o) == Some(true) ==>
                             Refutes(ver, facts.ranges, scheme, o)) <==>
            (AllOrderable(pkg.ranges) ==> SameAxis(pkgScheme, scheme) && AllOrderable(facts.ranges))
  {
    hide OutsideRanges, Recognized, Separated, SameAxis, AllOrderable;
    var restored := AgreementRestores(pkg.ranges, facts.ranges);
    AgreementIsExact(pkg.ranges, facts.ranges, facts.ranges, pkgScheme, scheme, o);
    assert |pkg.ranges| == |facts.ranges|;
    var judged := WithLegacy(pkg, facts, pkgScheme, scheme);
    assert judged == Built(pkg.ranges, "", pkgScheme);
    assert forall ver :: Refutes(ver, pkg.ranges, pkgScheme, o) <==> OutsideRanges(ver, judged, o) == Some(true);
  }

  // ----- two inputs on which it fails -----

  const TWO: Stated := Stated("v1.0.0", "v2.0.0", "", "SEMVER")

  /** A legacy range whose type orders no version agrees with the element's range of the same bounds, and what it
      leaves open the element refutes. */
  lemma AgreementIgnoresTypes(ver: string, o: Comparators)
    requires o.gomod(ver, "v2.0.0") == Some(1)
    ensures !L.Disagree(Bounds([TWO]), Bounds([TWO.(rangeType := "GIT")]))
    ensures Refutes(ver, [TWO], "", o) && !Refutes(ver, [TWO.(rangeType := "GIT")], "", o)
  {
    hide MavenVersion.CompareVersions, NpmVersion.DisqualifyOutside, NugetVersion.OutsideUpper,
      GoToolchain.OutsideUpper;
    OneAgrees(TWO);
    assert Bounds([TWO.(rangeType := "GIT")]) == Bounds([TWO]);
  }

  lemma OneAgrees(r: Stated)
    ensures !L.Disagree(Bounds([r]), Bounds([r]))
  {
    var b := Bounds([r])[0];
    assert Bounds([r]) == [b];
    assert L.FirstFree([b], b, {}, 0) == Some(0);
    assert !L.GreedyFails([b], [b], {});
  }

  /** The schemes are not compared either: of one and the same range the element, judged as a toolchain, refutes
      1.22.0, and the module comparator, which reads no such text, leaves it open. */
  lemma AgreementIgnoresSchemes(o: Comparators)
    requires forall b :: o.gomod("go1.22.0", b) == None
    ensures var r := Stated("go1.20.0", "go1.21.3", "", "SEMVER");
            && !L.Disagree(Bounds([r]), Bounds([r]))
            && Refutes("go1.22.0", [r], "go-toolchain", o) && !Refutes("go1.22.0", [r], "", o)
  {
    hide OutsideUpper, OutsideRange, Refutes, L.Disagree, Bounds;
    var r := Stated("go1.20.0", "go1.21.3", "", "SEMVER");
    OneAgrees(r);
    PastThreeReleases(o);
    assert FixedBounds([r]) == ["go1.21.3"];
    PastAllRefutes("go1.22.0", [r], "go-toolchain", o);
    assert Recognized("") && Unread("", "go1.22.0", o) by { EmptyScheme("go1.22.0", o); }
    OtherTypeOrAxisRefutesNot("go1.22.0", [r], [r], "", o, 0);
  }

  lemma EmptyScheme(ver: string, o: Comparators)
    requires forall b :: o.gomod(ver, b) == None
    ensures Recognized("") && Unread("", ver, o)
  {
    assert SCHEMES[0] == "";
  }

  lemma PastThreeReleases(o: Comparators)
    ensures forall r: Range :: r.scheme == "go-toolchain" && r.upperExclusive == "go1.21.3" ==>
              OutsideUpper("go1.22.0", r, o) == Some(true)
  {
    hide GoToolchain.OutsideUpper, GoToolchain.Format;
    ThreeReleases();
    LaterIsOutside(GoToolchain.Version(1, 22, 0, None), GoToolchain.Version(1, 21, 3, None));
    ToolchainUpper("go1.22.0", "go1.21.3", o);
  }

  lemma LaterIsOutside(a: GoToolchain.Version, b: GoToolchain.Version)
    requires a.rank == None && a.major <= MAX_INT64 && a.minor <= MAX_INT64 && a.patch <= MAX_INT64
    requires b.rank == None && b.major <= MAX_INT64 && b.minor <= MAX_INT64 && b.patch <= MAX_INT64
    requires GoToolchain.Compare(a, b) >= 0
    ensures GoToolchain.OutsideUpper(GoToolchain.Format(a), GoToolchain.Format(b)) == Some(true)
  {
    hide GoToolchain.ParseBound, GoToolchain.Format;
    GoToolchain.FormatRoundTrip(a);
    GoToolchain.FormatRoundTrip(b);
  }

  lemma ToolchainUpper(ver: string, upper: string, o: Comparators)
    requires GoToolchain.OutsideUpper(ver, upper) == Some(true)
    ensures forall r: Range :: r.scheme == "go-toolchain" && r.upperExclusive == upper ==>
            OutsideUpper(ver, r, o) == Some(true)
  {
    hide GoToolchain.OutsideUpper;
  }

  lemma ThreeReleases()
    ensures GoToolchain.Format(GoToolchain.Version(1, 22, 0, None)) == "go1.22.0"
    ensures GoToolchain.Format(GoToolchain.Version(1, 21, 3, None)) == "go1.21.3"
  {
    assert Itoa(1) == "1" && Itoa(22) == "22" && Itoa(0) == "0" && Itoa(21) == "21" && Itoa(3) == "3";
  }
}
