/**
 Prerelease precedence, shared by the npm and NuGet comparators (pipeline/npm_version.go): an empty
 identifier list is a release and orders above every prerelease.
 */
module Prerelease {
  import opened GoStrings

  /** Numeric identifiers below alphanumeric ones, numbers by value, text lexicographically. */
  function CompareID(a: string, b: string): (c: int)
    ensures -1 <= c <= 1
  {
    match (AtoiNonNeg(a), AtoiNonNeg(b))
    case (Some(m), Some(n)) => CmpInt(m, n)
    case (Some(_), None) => -1
    case (None, Some(_)) => 1
    case (None, None) => CompareText(a, b)
  }

  /** The loop over the shared identifiers, then the lengths. */
  function CompareIDs(a: seq<string>, b: seq<string>): (c: int)
    ensures -1 <= c <= 1
  {
    if a == [] || b == [] then CmpInt(|a|, |b|)
    else if CompareID(a[0], b[0]) != 0 then CompareID(a[0], b[0])
    else CompareIDs(a[1..], b[1..])
  }

  function Compare(a: seq<string>, b: seq<string>): (c: int)
    ensures -1 <= c <= 1
  {
    if a == [] && b == [] then 0
    else if a == [] then 1
    else if b == [] then -1
    else CompareIDs(a, b)
  }

  // ----- a total preorder -----

  lemma IDAntisymmetric(a: string, b: string)
    ensures CompareID(a, b) == -CompareID(b, a)
  {
    TextAntisymmetric(a, b);
  }

  lemma IDTransitive(a: string, b: string, c: string)
    requires CompareID(a, b) <= 0 && CompareID(b, c) <= 0
    ensures CompareID(a, c) <= 0
    ensures CompareID(a, c) < 0 <==> CompareID(a, b) < 0 || CompareID(b, c) < 0
  {
    TextAntisymmetric(a, b);
    TextAntisymmetric(b, c);
    TextAntisymmetric(a, c);
    if AtoiNonNeg(a).None? && AtoiNonNeg(b).None? && AtoiNonNeg(c).None? {
      TextTransitive(a, b, c);
    }
  }

  lemma {:induction false} IDsAntisymmetric(a: seq<string>, b: seq<string>)
    ensures CompareIDs(a, b) == -CompareIDs(b, a)
  {
    if a != [] && b != [] {
      IDAntisymmetric(a[0], b[0]);
      IDsAntisymmetric(a[1..], b[1..]);
    }
  }

  lemma {:induction false} IDsTransitive(a: seq<string>, b: seq<string>, c: seq<string>)
    requires CompareIDs(a, b) <= 0 && CompareIDs(b, c) <= 0
    ensures CompareIDs(a, c) <= 0
    ensures CompareIDs(a, c) < 0 <==> CompareIDs(a, b) < 0 || CompareIDs(b, c) < 0
  {
    if a != [] && b != [] && c != [] {
      IDTransitive(a[0], b[0], c[0]);
      if CompareID(a[0], b[0]) == 0 && CompareID(b[0], c[0]) == 0 {
        IDsTransitive(a[1..], b[1..], c[1..]);
      }
    }
  }

  lemma Antisymmetric(a: seq<string>, b: seq<string>)
    ensures Compare(a, b) == -Compare(b, a)
  {
    IDsAntisymmetric(a, b);
  }

  lemma Transitive(a: seq<string>, b: seq<string>, c: seq<string>)
    requires Compare(a, b) <= 0 && Compare(b, c) <= 0
    ensures Compare(a, c) <= 0
    ensures Compare(a, c) < 0 <==> Compare(a, b) < 0 || Compare(b, c) < 0
  {
    if a != [] && b != [] && c != [] {
      IDsTransitive(a, b, c);
    }
  }

  // ----- the precedence of section 11 of Semantic Versioning 2.0.0 -----

  /** Two identifiers of one rank: the same text, or the same number. */
  ghost predicate SameRank(a: string, b: string) {
    a == b || (AtoiNonNeg(a).Some? && AtoiNonNeg(a) == AtoiNonNeg(b))
  }

  /** The smaller number, a number in front of any other text, or the text that comes first. */
  ghost predicate RanksBelow(a: string, b: string) {
    match (AtoiNonNeg(a), AtoiNonNeg(b))
    case (Some(m), Some(n)) => m < n
    case (Some(_), None) => true
    case (None, Some(_)) => false
    case (None, None) => TextBefore(a, b)
  }

  lemma IDOrder(a: string, b: string)
    ensures CompareID(a, b) < 0 <==> RanksBelow(a, b)
    ensures CompareID(a, b) == 0 <==> SameRank(a, b)
    ensures CompareID(a, b) > 0 <==> RanksBelow(b, a)
  {
    hide AtoiNonNeg, TextBefore;
    TextOrder(a, b);
    TextOrder(b, a);
    TextAntisymmetric(a, b);
  }

  /** a precedes b at k: everything before k is of one rank, and k is where a ends first or is smaller. */
  ghost predicate PrecedesAt(a: seq<string>, b: seq<string>, k: nat) {
    && k <= |a| && k < |b|
    && (forall i :: 0 <= i < k ==> SameRank(a[i], b[i]))
    && (k < |a| ==> RanksBelow(a[k], b[k]))
  }

  lemma {:induction false} FirstDifference(a: seq<string>, b: seq<string>) returns (k: nat)
    requires CompareIDs(a, b) < 0
    ensures PrecedesAt(a, b, k)
  {
    hide CompareID, SameRank, RanksBelow;
    if a != [] {
      IDOrder(a[0], b[0]);
    }
    if a == [] || CompareID(a[0], b[0]) != 0 {
      k := 0;
    } else {
      k := FirstDifference(a[1..], b[1..]);
      OneFurther(a, b, k);
      k := k + 1;
    }
  }

  lemma OneFurther(a: seq<string>, b: seq<string>, k: nat)
    requires a != [] && b != [] && SameRank(a[0], b[0]) && PrecedesAt(a[1..], b[1..], k)
    ensures PrecedesAt(a, b, k + 1)
  {
    hide SameRank, RanksBelow;
    assert forall i :: 0 < i < k + 1 ==> a[i] == a[1..][i - 1] && b[i] == b[1..][i - 1];
  }

  lemma {:induction false} DifferenceDecides(a: seq<string>, b: seq<string>, k: nat)
    requires PrecedesAt(a, b, k)
    ensures CompareIDs(a, b) < 0
  {
    hide CompareID, SameRank, RanksBelow;
    if a != [] {
      IDOrder(a[0], b[0]);
      if k > 0 {
        assert PrecedesAt(a[1..], b[1..], k - 1);
        DifferenceDecides(a[1..], b[1..], k - 1);
      }
    }
  }

  /** Between two prereleases the order is exactly that of the first differing identifier. */
  lemma PrecedenceIsFirstDifference(a: seq<string>, b: seq<string>)
    requires a != [] && b != []
    ensures Compare(a, b) < 0 <==> exists k: nat :: PrecedesAt(a, b, k)
  {
    hide CompareID, PrecedesAt;
    if Compare(a, b) < 0 {
      var k := FirstDifference(a, b);
    } else if k: nat :| PrecedesAt(a, b, k) {
      DifferenceDecides(a, b, k);
    }
  }

  /** The order is not antisymmetric on text: two identifiers compare equal and differ. */
  lemma EqualIsNotIdentical()
    ensures CompareID("-0", "0") == 0 && "-0" != "0"
    ensures Compare(["-0"], ["0"]) == 0
  {
    assert AtoiNonNeg("-0") == Some(0) && AtoiNonNeg("0") == Some(0) by {
      assert "-0"[1..] == "0";
      assert AllDigits("0") && !IsDigit("-0"[0]);
    }
  }

  /** Two identifiers compare equal exactly when they are the same text or the same number. */
  lemma IDEqual(a: string, b: string)
    ensures CompareID(a, b) == 0 <==> a == b || (AtoiNonNeg(a).Some? && AtoiNonNeg(a) == AtoiNonNeg(b))
  {
    TextAntisymmetric(a, b);
  }
}
