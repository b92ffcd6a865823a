/** NuGet versions and version intervals (pipeline/nuget_version.go). */
module NugetVersion {
  import opened GoStrings
  import Prerelease

  datatype Version = Version(major: nat, minor: nat, patch: nat, revision: nat, prerelease: seq<string>)

  // ----- parsing -----

  predicate IsFloating(s: string) {
    '*' in s
  }

  predicate IsAllowedChar(c: char) {
    || IsDigit(c) || IsUpper(c) || IsLower(c)
    || c == '.' || c == '-' || c == '+' || c == '*' || c == ',' || c == '[' || c == ']' || c == '(' || c == ')'
    || c == ' ' || c == '\t'
  }

  predicate AllowedChars(s: string) {
    forall i :: 0 <= i < |s| ==> IsAllowedChar(s[i])
  }

  predicate ValidPrereleaseID(id: string) {
    id != "" && forall i :: 0 <= i < |id| ==> IsDigit(id[i]) || IsLower(id[i]) || id[i] == '-'
  }

  predicate ValidPrerelease(ids: seq<string>) {
    forall i :: 0 <= i < |ids| ==> ValidPrereleaseID(ids[i])
  }

  /** The numbers of the dot-separated core, or None when one is not a number. */
  function Segments(parts: seq<string>): (r: Option<seq<nat>>)
    ensures r.Some? ==> |r.value| == |parts|
  {
    if parts == [] then Some([])
    else match AtoiNonNeg(parts[0])
      case None => None
      case Some(n) => match Segments(parts[1..]) case Some(rest) => Some([n] + rest) case None => None
  }

  function At(nums: seq<nat>, i: nat): nat {
    if i < |nums| then nums[i] else 0
  }

  /** The four segments a core gives, missing ones 0; None when there are too many or one is malformed. */
  function Core(core: string): Option<Version> {
    var parts := Split(core, '.');
    if |parts| > 4 then None
    else match Segments(parts)
      case None => None
      case Some(n) => Some(Version(At(n, 0), At(n, 1), At(n, 2), At(n, 3), []))
  }

  /** The version a text without build metadata gives. */
  function ParseText(text: string): Option<Version> {
    var dash := IndexOf(text, '-');
    if dash < 0 then Core(text)
    else
      var pre := text[dash + 1..];
      var ids := Split(ToLower(pre), '.');
      if pre == "" || Core(text[..dash]).None? then None
      else if !ValidPrerelease(ids) then None
      else Some(Core(text[..dash]).value.(prerelease := ids))
  }

  function ParseTrimmed(s: string): Option<Version> {
    var plus := IndexOf(s, '+');
    if s == "" || !AllowedChars(s) then None
    else ParseText(if plus >= 0 then s[..plus] else s)
  }

  function Parse(s: string): Option<Version> {
    ParseTrimmed(TrimSpace(s))
  }

  /** The source's loop filling its four segments. */
  method ReadCore(core: string) returns (r: Option<Version>)
    ensures r == Core(core)
  {
    hide Split, AtoiNonNeg, Segments;
    var parts := Split(core, '.');
    if |parts| > 4 {
      return None;
    }
    var seg: seq<nat> := [0, 0, 0, 0];
    ghost var nums: seq<nat> := [];
    assert parts[0..] == parts;
    for i := 0 to |parts|
      invariant |seg| == 4 && |nums| == i
      invariant forall k :: 0 <= k < 4 ==> seg[k] == At(nums, k)
      invariant Segments(parts).None? <==> Segments(parts[i..]).None?
      invariant Segments(parts).Some? ==> Segments(parts).value == nums + Segments(parts[i..]).value
    {
      SegmentsNext(parts, i);
      var n := AtoiNonNeg(parts[i]);
      if n.None? {
        return None;
      }
      seg := seg[i := n.value];
      nums := nums + [n.value];
    }
    assert nums + [] == nums && parts[|parts|..] == [];
    NoSegments();
    return Some(Version(seg[0], seg[1], seg[2], seg[3], []));
  }

  lemma SegmentsNext(parts: seq<string>, i: nat)
    requires i < |parts|
    ensures Segments(parts[i..]) ==
            match AtoiNonNeg(parts[i])
            case None => None
            case Some(n) =>
              match Segments(parts[i + 1..]) case Some(rest) => Some([n] + rest) case None => None
  {
    hide AtoiNonNeg;
    assert parts[i..][1..] == parts[i + 1..];
  }

  lemma NoSegments()
    ensures Segments([]) == Some([])
  {
  }

  /** parseNuGetVersion. */
  method ReadVersion(raw: string) returns (r: Option<Version>)
    ensures r == Parse(raw)
  {
    hide IndexOf, TrimSpace, AllowedChars, ParseText;
    var s := TrimSpace(raw);
    if s == "" || !AllowedChars(s) {
      return None;
    }
    var plus := IndexOf(s, '+');
    if plus >= 0 {
      s := s[..plus];
    }
    r := ReadText(s);
  }

  method ReadText(s: string) returns (r: Option<Version>)
    ensures r == ParseText(s)
  {
    hide IndexOf, Split, ToLower, Core, ValidPrerelease;
    var core, pre, hasPre := s, "", false;
    var dash := IndexOf(s, '-');
    if dash >= 0 {
      core, pre, hasPre := s[..dash], s[dash + 1..], true;
    }
    if hasPre && pre == "" {
      return None;
    }
    r := ReadCore(core);
    if r.None? || pre == "" {
      return;
    }
    var ids := Split(ToLower(pre), '.');
    var valid := CheckPrerelease(ids);
    if !valid {
      return None;
    }
    return Some(r.value.(prerelease := ids));
  }

  /** The scan of the prerelease identifiers. */
  method CheckPrerelease(ids: seq<string>) returns (ok: bool)
    ensures ok == ValidPrerelease(ids)
  {
    for k := 0 to |ids|
      invariant forall i :: 0 <= i < k ==> ValidPrereleaseID(ids[i])
    {
      if !ValidPrereleaseID(ids[k]) {
        return false;
      }
    }
    return true;
  }

  // ----- the order -----

  function Compare(a: Version, b: Version): (c: int)
    ensures -1 <= c <= 1
  {
    if a.major != b.major then CmpInt(a.major, b.major)
    else if a.minor != b.minor then CmpInt(a.minor, b.minor)
    else if a.patch != b.patch then CmpInt(a.patch, b.patch)
    else if a.revision != b.revision then CmpInt(a.revision, b.revision)
    else Prerelease.Compare(a.prerelease, b.prerelease)
  }

  lemma Antisymmetric(a: Version, b: Version)
    ensures Compare(a, b) == -Compare(b, a)
  {
    Prerelease.Antisymmetric(a.prerelease, b.prerelease);
  }

  predicate SameCore(a: Version, b: Version) {
    a.major == b.major && a.minor == b.minor && a.patch == b.patch && a.revision == b.revision
  }

  lemma Transitive(a: Version, b: Version, c: Version)
    requires Compare(a, b) <= 0 && Compare(b, c) <= 0
    ensures Compare(a, c) <= 0
    ensures Compare(a, c) < 0 <==> Compare(a, b) < 0 || Compare(b, c) < 0
  {
    if SameCore(a, b) && SameCore(b, c) {
      Prerelease.Transitive(a.prerelease, b.prerelease, c.prerelease);
    }
  }

  /** A release is strictly above every prerelease of it, and nothing else lies between them. */
  lemma ReleaseAbovePrereleases(release: Version, pre: Version, v: Version)
    requires SameCore(release, pre) && release.prerelease == [] && pre.prerelease != []
    ensures Compare(pre, release) < 0
    ensures Compare(pre, v) <= 0 && Compare(v, release) < 0 ==> SameCore(v, release) && v.prerelease != []
  {
  }

  /** Missing segments are zero: a core and its ".0" extension parse to the same version. */
  lemma MissingSegmentsAreZero(core: string)
    requires |Split(core, '.')| < 4
    ensures Core(core + ".0") == Core(core)
  {
    hide Split, AtoiNonNeg;
    var parts := Split(core, '.');
    JoinSplit(core, '.');
    JoinAppend(parts, "0", '.');
    assert '.' !in "0";
    SplitJoin(parts + ["0"], '.');
    assert core + "." + "0" == core + ".0";
    ZeroSegment();
    SegmentsAppend(parts, "0");
    if Segments(parts).Some? {
      var n := Segments(parts).value;
      assert forall i: nat :: At(n + [0], i) == At(n, i);
    }
  }

  lemma ZeroSegment()
    ensures AtoiNonNeg("0") == Some(0)
  {
    assert AllDigits("0") && "0"[..0] == "" && Decimal("0") == 0;
  }

  lemma {:induction false} JoinAppend(parts: seq<string>, last: string, sep: char)
    requires |parts| >= 1
    ensures Join(parts + [last], sep) == Join(parts, sep) + [sep] + last
  {
    assert (parts + [last])[1..] == parts[1..] + [last];
    if |parts| == 1 {
      assert Join([last], sep) == last;
    } else {
      JoinAppend(parts[1..], last, sep);
    }
  }

  lemma {:induction false} SegmentsAppend(parts: seq<string>, last: string)
    requires AtoiNonNeg(last).Some?
    ensures Segments(parts + [last]) ==
            match Segments(parts) case Some(a) => Some(a + [AtoiNonNeg(last).value]) case None => None
  {
    hide AtoiNonNeg;
    if parts == [] {
      assert parts + [last] == [last] && [last][1..] == [];
      assert Segments([]) == Some([]);
      assert [AtoiNonNeg(last).value] + [] == [] + [AtoiNonNeg(last).value];
    } else {
      SegmentsAppend(parts[1..], last);
      assert (parts + [last])[1..] == parts[1..] + [last];
      var rest := Segments(parts[1..]);
      if AtoiNonNeg(parts[0]).Some? && rest.Some? {
        var n, m := AtoiNonNeg(parts[0]).value, AtoiNonNeg(last).value;
        assert [n] + (rest.value + [m]) == ([n] + rest.value) + [m];
      }
    }
  }

  // ----- intervals -----

  datatype Bound = Unbounded | Bound(v: Version, inclusive: bool)

  /** hasLo/lo/loIncl and hasHi/hi/hiIncl of nugetInterval, one bound each. */
  datatype Interval = Interval(lo: Bound, hi: Bound)

  predicate AboveLo(iv: Interval, v: Version) {
    match iv.lo
    case Unbounded => true
    case Bound(lo, incl) => !(Compare(v, lo) < 0 || (Compare(v, lo) == 0 && !incl))
  }

  predicate BelowHi(iv: Interval, v: Version) {
    match iv.hi
    case Unbounded => true
    case Bound(hi, incl) => !(Compare(v, hi) > 0 || (Compare(v, hi) == 0 && !incl))
  }

  predicate Contains(iv: Interval, v: Version) {
    AboveLo(iv, v) && BelowHi(iv, v)
  }

  function ParseBound(s: string, inclusive: bool): Option<Bound> {
    if s == "" then Some(Unbounded)
    else match Parse(s) case Some(v) => Some(Bound(v, inclusive)) case None => None
  }

  /** The interval two bounds make, refused when it is inverted or, at one point, not closed. */
  function MakeInterval(lo: Bound, hi: Bound): Option<Interval> {
    if lo.Bound? && hi.Bound? &&
       (Compare(lo.v, hi.v) > 0 || (Compare(lo.v, hi.v) == 0 && !(lo.inclusive && hi.inclusive))) then None
    else Some(Interval(lo, hi))
  }

  function ParseInterval(expr: string): Option<Interval> {
    if expr == "" then None
    else if expr[0] != '[' && expr[0] != '(' then
      match Parse(expr) case Some(v) => Some(Interval(Bound(v, true), Unbounded)) case None => None
    else if |expr| == 1 then None
    else
      var close := expr[|expr| - 1];
      var inner := expr[1..|expr| - 1];
      var comma := IndexOf(inner, ',');
      if close != ']' && close != ')' then None
      else if comma < 0 then
        if expr[0] != '[' || close != ']' then None
        else match Parse(TrimSpace(inner))
          case Some(v) => Some(Interval(Bound(v, true), Bound(v, true)))
          case None => None
      else if ',' in inner[comma + 1..] then None
      else
        var lo := TrimSpace(inner[..comma]);
        var hi := TrimSpace(inner[comma + 1..]);
        if lo == "" && hi == "" then None
        else match (ParseBound(lo, expr[0] == '['), ParseBound(hi, close == ']'))
          case (Some(l), Some(h)) => MakeInterval(l, h)
          case _ => None
  }

  /** nugetVersionInRange: None is the source's ok=false. */
  function InRange(ver: string, expr: string): Option<bool> {
    if IsFloating(ver) || IsFloating(expr) || !AllowedChars(expr) then None
    else match (Parse(ver), ParseInterval(TrimSpace(expr)))
      case (Some(v), Some(iv)) => Some(Contains(iv, v))
      case _ => None
  }

  /** nugetVersionOutsideRange. */
  function OutsideUpper(ver: string, upper: string): Option<bool> {
    if IsFloating(ver) || IsFloating(upper) then None
    else match (Parse(ver), Parse(upper))
      case (Some(a), Some(b)) => Some(Compare(a, b) >= 0)
      case _ => None
  }

  /** Membership is convex. */
  lemma IntervalIsConvex(iv: Interval, a: Version, b: Version, c: Version)
    requires Compare(a, b) <= 0 && Compare(b, c) <= 0
    requires Contains(iv, a) && Contains(iv, c)
    ensures Contains(iv, b)
  {
    if iv.lo.Bound? {
      Antisymmetric(a, iv.lo.v);
      Antisymmetric(b, iv.lo.v);
      Transitive(iv.lo.v, a, b);
    }
    if iv.hi.Bound? {
      Transitive(b, c, iv.hi.v);
    }
  }

  /** An accepted interval holds each bound it includes and neither bound it excludes. */
  lemma BoundsAreMembersWhenInclusive(expr: string)
    requires ParseInterval(expr).Some?
    ensures var iv := ParseInterval(expr).value;
            && (iv.lo.Bound? ==> (Contains(iv, iv.lo.v) <==> iv.lo.inclusive))
            && (iv.hi.Bound? ==> (Contains(iv, iv.hi.v) <==> iv.hi.inclusive))
  {
    hide Parse, TrimSpace, IndexOf;
    var iv := ParseInterval(expr).value;
    assert iv.lo.Bound? && iv.hi.Bound? ==> MakeInterval(iv.lo, iv.hi) == Some(iv) by {
      if iv.lo.Bound? && iv.hi.Bound? && iv.lo == iv.hi {
        Antisymmetric(iv.lo.v, iv.lo.v);
      }
    }
    if iv.lo.Bound? {
      Antisymmetric(iv.lo.v, iv.lo.v);
    }
    if iv.hi.Bound? {
      Antisymmetric(iv.hi.v, iv.hi.v);
    }
    if iv.lo.Bound? && iv.hi.Bound? {
      Antisymmetric(iv.lo.v, iv.hi.v);
    }
  }

  /** The bound form [,X) and the upper-exclusive bound X place the same versions outside. */
  lemma UpperBoundIsHalfOpenInterval(ver: string, upper: string)
    requires Parse(ver).Some? && Parse(upper).Some? && !IsFloating(ver) && !IsFloating(upper)
    ensures OutsideUpper(ver, upper) == Some(!Contains(Interval(Unbounded, Bound(Parse(upper).value, false)),
                                                       Parse(ver).value))
  {
  }

  // ----- the order, number by number -----

  /** The first of the four segments that differs decides; a prerelease is below its release, and two of one
      release are in the order of their identifiers. */
  lemma OrderIs(a: Version, b: Version)
    ensures Compare(a, b) < 0 <==>
            || a.major < b.major
            || (a.major == b.major && a.minor < b.minor)
            || (a.major == b.major && a.minor == b.minor && a.patch < b.patch)
            || (a.major == b.major && a.minor == b.minor && a.patch == b.patch && a.revision < b.revision)
            || (SameCore(a, b) && a.prerelease != []
                && (b.prerelease == [] || exists k: nat :: Prerelease.PrecedesAt(a.prerelease, b.prerelease, k)))
  {
    hide Prerelease.CompareIDs, Prerelease.PrecedesAt;
    if a.prerelease != [] && b.prerelease != [] {
      Prerelease.PrecedenceIsFirstDifference(a.prerelease, b.prerelease);
    }
  }
}
