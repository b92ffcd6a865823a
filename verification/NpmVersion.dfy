/**
 npm (node-semver) versions: the order, comparator sets and the expansion of ranges
 (pipeline/npm_version.go).
 */
module NpmVersion {
  import opened GoStrings
  import Prerelease

  const SEMVER_MAX: nat := 0x1F_FFFF_FFFF_FFFF // 2^53 - 1

  datatype Version = Version(major: nat, minor: nat, patch: nat, prerelease: seq<string>)

  const ZERO := Version(0, 0, 0, [])

  // ----- parsing -----

  predicate IsASCIISpace(c: char) {
    c == ' ' || '\t' <= c <= '\r'
  }

  function TrimASCIISpace(s: string): string {
    TrimFunc(s, IsASCIISpace)
  }

  predicate IsIdentifierChar(c: char) {
    IsDigit(c) || IsLower(c) || IsUpper(c) || c == '-'
  }

  predicate ValidIdentifier(id: string, prerelease: bool) {
    && id != ""
    && (forall i :: 0 <= i < |id| ==> IsIdentifierChar(id[i]))
    && (prerelease && AllDigits(id) ==>
          (|id| > 1 ==> id[0] != '0') && AtoiNonNeg(id).Some? && AtoiNonNeg(id).value <= SEMVER_MAX)
  }

  predicate ValidIdentifiers(s: string, prerelease: bool) {
    forall i :: 0 <= i < |Split(s, '.')| ==> ValidIdentifier(Split(s, '.')[i], prerelease)
  }

  /** validIdentifiers, as the source scans: one pass over the characters of each identifier. */
  method CheckIdentifiers(s: string, prerelease: bool) returns (ok: bool)
    ensures ok == ValidIdentifiers(s, prerelease)
  {
    var ids := Split(s, '.');
    for n := 0 to |ids|
      invariant forall k :: 0 <= k < n ==> ValidIdentifier(ids[k], prerelease)
    {
      var id := ids[n];
      if id == "" {
        return false;
      }
      var numeric := true;
      for i := 0 to |id|
        invariant forall k :: 0 <= k < i ==> IsIdentifierChar(id[k])
        invariant numeric <==> forall k :: 0 <= k < i ==> IsDigit(id[k])
      {
        if IsDigit(id[i]) {
        } else if IsLower(id[i]) || IsUpper(id[i]) || id[i] == '-' {
          numeric := false;
        } else {
          return false;
        }
      }
      if prerelease && numeric {
        if |id| > 1 && id[0] == '0' {
          return false;
        }
        var v := AtoiNonNeg(id);
        if v.None? || v.value > SEMVER_MAX {
          return false;
        }
      }
    }
    return true;
  }

  function VersionComponent(s: string): (r: Option<nat>)
    ensures r.Some? ==> r.value <= SEMVER_MAX
  {
    if |s| > 1 && s[0] == '0' then None
    else match AtoiNonNeg(s)
         case Some(n) => if n > SEMVER_MAX then None else Some(n)
         case None => None
  }

  function NextComponent(n: nat): (r: Option<nat>)
    ensures r.Some? ==> r.value <= SEMVER_MAX
  {
    if n >= SEMVER_MAX then None else Some(n + 1)
  }

  /** s is the version's text without surrounding blanks, a leading 'v' or build metadata. */
  function ParseCore(s: string): (r: Option<Version>)
    ensures r.Some? ==> Bounded(r.value)
  {
    var dash := IndexOf(s, '-');
    var core := if dash >= 0 then s[..dash] else s;
    var pre := if dash >= 0 then s[dash + 1..] else "";
    var parts := Split(core, '.');
    if |parts| != 3 then None
    else match (VersionComponent(parts[0]), VersionComponent(parts[1]), VersionComponent(parts[2]))
      case (Some(major), Some(minor), Some(patch)) =>
        if pre == "" then Some(Version(major, minor, patch, []))
        else if !ValidIdentifiers(pre, true) then None
        else Some(Version(major, minor, patch, Split(pre, '.')))
      case _ => None
  }

  /** The text parseNPMVersion reads once blanks and a leading 'v' are gone. */
  function ParseBare(s: string): (r: Option<Version>)
    ensures r.Some? ==> Bounded(r.value)
  {
    var plus := IndexOf(s, '+');
    if s == "" then None
    else if plus >= 0 && !ValidIdentifiers(s[plus + 1..], false) then None
    else ParseCore(if plus >= 0 then s[..plus] else s)
  }

  /** parseNPMVersion: "X.Y.Z[-pre][+build]" with an optional leading 'v'. */
  function Parse(s: string): (r: Option<Version>)
    ensures r.Some? ==> Bounded(r.value)
  {
    ParseBare(TrimPrefix(TrimASCIISpace(s), "v"))
  }

  predicate Bounded(v: Version) {
    v.major <= SEMVER_MAX && v.minor <= SEMVER_MAX && v.patch <= SEMVER_MAX
  }

  // ----- the order -----

  function Compare(a: Version, b: Version): (c: int)
    ensures -1 <= c <= 1
  {
    if a.major != b.major then CmpInt(a.major, b.major)
    else if a.minor != b.minor then CmpInt(a.minor, b.minor)
    else if a.patch != b.patch then CmpInt(a.patch, b.patch)
    else Prerelease.Compare(a.prerelease, b.prerelease)
  }

  lemma Antisymmetric(a: Version, b: Version)
    ensures Compare(a, b) == -Compare(b, a)
  {
    Prerelease.Antisymmetric(a.prerelease, b.prerelease);
  }

  lemma Transitive(a: Version, b: Version, c: Version)
    requires Compare(a, b) <= 0 && Compare(b, c) <= 0
    ensures Compare(a, c) <= 0
    ensures Compare(a, c) < 0 <==> Compare(a, b) < 0 || Compare(b, c) < 0
  {
    if SameCore(a, b) && SameCore(b, c) {
      Prerelease.Transitive(a.prerelease, b.prerelease, c.prerelease);
    }
  }

  predicate SameCore(a: Version, b: Version) {
    a.major == b.major && a.minor == b.minor && a.patch == b.patch
  }

  /** A release is strictly above every prerelease of it, and nothing else lies between them. */
  lemma ReleaseAbovePrereleases(release: Version, pre: Version, v: Version)
    requires SameCore(release, pre) && release.prerelease == [] && pre.prerelease != []
    ensures Compare(pre, release) < 0
    ensures Compare(pre, v) <= 0 && Compare(v, release) < 0 ==> SameCore(v, release) && v.prerelease != []
  {
  }

  // ----- comparator sets -----

  datatype Op = Lt | Le | Gt | Ge | Eq

  datatype Comparator = Comparator(op: Op, v: Version)

  predicate Satisfies(v: Version, c: Comparator) {
    var cmp := Compare(v, c.v);
    match c.op
    case Lt => cmp < 0
    case Le => cmp <= 0
    case Gt => cmp > 0
    case Ge => cmp >= 0
    case Eq => cmp == 0
  }

  predicate PrereleaseAllowed(v: Version, comps: seq<Comparator>) {
    exists i :: 0 <= i < |comps| && comps[i].v.prerelease != [] && SameCore(v, comps[i].v)
  }

  predicate SatisfiesSet(v: Version, comps: seq<Comparator>, includePrerelease: bool) {
    && (forall i :: 0 <= i < |comps| ==> Satisfies(v, comps[i]))
    && (v.prerelease == [] || includePrerelease || PrereleaseAllowed(v, comps))
  }

  /** A comparator set, prereleases included, admits everything between two versions it admits. */
  lemma SetIsConvex(comps: seq<Comparator>, a: Version, b: Version, c: Version)
    requires Compare(a, b) <= 0 && Compare(b, c) <= 0
    requires SatisfiesSet(a, comps, true) && SatisfiesSet(c, comps, true)
    ensures SatisfiesSet(b, comps, true)
  {
    forall i | 0 <= i < |comps| ensures Satisfies(b, comps[i]) {
      ComparatorIsConvex(comps[i], a, b, c);
    }
  }

  lemma ComparatorIsConvex(k: Comparator, a: Version, b: Version, c: Version)
    requires Compare(a, b) <= 0 && Compare(b, c) <= 0
    requires Satisfies(a, k) && Satisfies(c, k)
    ensures Satisfies(b, k)
  {
    Antisymmetric(a, k.v);
    Antisymmetric(b, k.v);
    if k.op.Lt? || k.op.Le? || k.op.Eq? {
      Transitive(b, c, k.v);
    }
    if k.op.Gt? || k.op.Ge? || k.op.Eq? {
      Transitive(k.v, a, b);
    }
  }

  /** Isolation only takes prereleases away: on releases the two readings agree. */
  lemma IsolationRemovesPrereleases(v: Version, comps: seq<Comparator>)
    ensures SatisfiesSet(v, comps, false) ==> SatisfiesSet(v, comps, true)
    ensures SatisfiesSet(v, comps, true) && !SatisfiesSet(v, comps, false) ==> v.prerelease != []
  {
  }

  // ----- range expansion -----

  predicate IsWildcard(s: string) {
    s == "x" || s == "X" || s == "*"
  }

  datatype Partial = Partial(v: Version, count: nat)

  /** The leading components before the first wildcard, or None when one of them is malformed. */
  function LeadingComponents(parts: seq<string>): (r: Option<seq<nat>>)
    ensures r.Some? ==> |r.value| <= |parts|
    ensures r.Some? ==> forall i :: 0 <= i < |r.value| ==> r.value[i] <= SEMVER_MAX
  {
    if parts == [] || IsWildcard(parts[0]) then Some([])
    else match VersionComponent(parts[0])
         case Some(n) => Prepend([n], LeadingComponents(parts[1..]))
         case None => None
  }

  function Prepend<T>(front: seq<T>, r: Option<seq<T>>): Option<seq<T>> {
    match r case Some(rest) => Some(front + rest) case None => None
  }

  lemma PrependTwice<T>(a: seq<T>, b: seq<T>, r: Option<seq<T>>)
    ensures Prepend(a, Prepend(b, r)) == Prepend(a + b, r)
    ensures Prepend([], r) == r
  {
    if r.Some? {
      assert a + (b + r.value) == (a + b) + r.value && [] + r.value == r.value;
    }
  }

  function At(nums: seq<nat>, i: nat): nat {
    if i < |nums| then nums[i] else 0
  }

  function PartialOf(nums: seq<nat>): (p: Partial)
    requires 1 <= |nums| <= 3 && forall i :: 0 <= i < |nums| ==> nums[i] <= SEMVER_MAX
    ensures Bounded(p.v) && p.count == |nums| && p.v.prerelease == []
    ensures |nums| < 3 ==> p.v.patch == 0
    ensures |nums| < 2 ==> p.v.minor == 0
  {
    Partial(Version(At(nums, 0), At(nums, 1), At(nums, 2), []), |nums|)
  }

  /** What a partial version may be: components not given are zero. */
  predicate IsPartial(p: Partial) {
    && Bounded(p.v) && 1 <= p.count <= 3
    && (p.count < 3 ==> p.v.prerelease == [] && p.v.patch == 0)
    && (p.count < 2 ==> p.v.minor == 0)
  }

  function PartialOfParts(parts: seq<string>): (r: Option<Partial>)
    ensures r.Some? ==> IsPartial(r.value)
  {
    hide LeadingComponents;
    if |parts| > 3 then None
    else match LeadingComponents(parts)
      case None => None
      case Some(nums) =>
        if nums == [] then None else Some(PartialOf(nums))
  }

  function ParsePartial(raw: string): (r: Option<Partial>)
    ensures r.Some? ==> IsPartial(r.value)
  {
    hide Parse, TrimFunc, Split, PartialOfParts;
    var s := TrimASCIISpace(raw);
    if s == "" then None
    else if Parse(s).Some? then Some(Partial(Parse(s).value, 3))
    else PartialOfParts(Split(s, '.'))
  }

  /** parsePartialVersion, as the source fills its three numbers. */
  method ReadPartial(raw: string) returns (r: Option<Partial>)
    ensures r == ParsePartial(raw)
  {
    hide Parse, TrimFunc, Split, VersionComponent, IsWildcard;
    var s := TrimASCIISpace(raw);
    if s == "" {
      return None;
    }
    var v := Parse(s);
    if v.Some? {
      return Some(Partial(v.value, 3));
    }
    var parts := Split(s, '.');
    if |parts| > 3 {
      return None;
    }
    var n0: nat, n1: nat, n2: nat := 0, 0, 0;
    var count := 0;
    ghost var nums: seq<nat> := [];
    PrependTwice([], [], LeadingComponents(parts));
    assert parts[0..] == parts;
    while count < |parts|
      invariant 0 <= count <= |parts| && count == |nums|
      invariant n0 == At(nums, 0) && n1 == At(nums, 1) && n2 == At(nums, 2)
      invariant LeadingComponents(parts) == Prepend(nums, LeadingComponents(parts[count..]))
    {
      if IsWildcard(parts[count]) {
        break;
      }
      assert parts[count..][1..] == parts[count + 1..];
      var n := VersionComponent(parts[count]);
      if n.None? {
        return None;
      }
      if count == 0 { n0 := n.value; } else if count == 1 { n1 := n.value; } else { n2 := n.value; }
      PrependTwice(nums, [n.value], LeadingComponents(parts[count + 1..]));
      nums := nums + [n.value];
      count := count + 1;
    }
    assert nums + [] == nums;
    if count == 0 {
      return None;
    }
    return Some(Partial(Version(n0, n1, n2, []), count));
  }

  function Window(floor: Version, ceil: Version): seq<Comparator> {
    [Comparator(Ge, floor), Comparator(Lt, ceil)]
  }

  /** The ceiling caretRange gives: the left-most non-zero of the given components is bumped. */
  function CaretCeil(p: Partial): Option<Version> {
    if p.count == 1 || p.v.major != 0 then
      match NextComponent(p.v.major) case Some(n) => Some(Version(n, 0, 0, [])) case None => None
    else if p.count == 2 || p.v.minor != 0 then
      match NextComponent(p.v.minor) case Some(n) => Some(Version(0, n, 0, [])) case None => None
    else
      match NextComponent(p.v.patch) case Some(n) => Some(Version(0, 0, n, [])) case None => None
  }

  function TildeCeil(p: Partial): Option<Version> {
    if p.count >= 2 then
      match NextComponent(p.v.minor) case Some(n) => Some(Version(p.v.major, n, 0, [])) case None => None
    else
      match NextComponent(p.v.major) case Some(n) => Some(Version(n, 0, 0, [])) case None => None
  }

  function CaretRange(raw: string): Option<seq<Comparator>> {
    match ParsePartial(raw)
    case None => None
    case Some(p) => match CaretCeil(p) case Some(ceil) => Some(Window(p.v, ceil)) case None => None
  }

  function TildeRange(raw: string): Option<seq<Comparator>> {
    match ParsePartial(raw)
    case None => None
    case Some(p) => match TildeCeil(p) case Some(ceil) => Some(Window(p.v, ceil)) case None => None
  }

  function XRange(raw: string): Option<seq<Comparator>> {
    var s := TrimASCIISpace(raw);
    if s == "" || IsWildcard(s) then Some([Comparator(Ge, ZERO)])
    else
      var parts := Split(s, '.');
      if |parts| > 3 then None
      else match VersionComponent(parts[0])
        case None => None
        case Some(major) =>
          if |parts| == 1 || IsWildcard(parts[1]) then
            match NextComponent(major)
            case Some(next) => Some(Window(Version(major, 0, 0, []), Version(next, 0, 0, [])))
            case None => None
          else match VersionComponent(parts[1])
            case None => None
            case Some(minor) =>
              if |parts| == 2 || IsWildcard(parts[2]) then
                match NextComponent(minor)
                case Some(next) => Some(Window(Version(major, minor, 0, []), Version(major, next, 0, [])))
                case None => None
              else None
  }

  /** What a window [floor, ceil) must be: two bounded versions, strictly ordered. */
  predicate IsWindow(comps: seq<Comparator>) {
    && |comps| == 2
    && comps[0].op == Ge && comps[1].op == Lt
    && Bounded(comps[0].v) && Bounded(comps[1].v)
    && comps[1].v.prerelease == []
    && Compare(comps[0].v, comps[1].v) < 0
  }

  lemma ExpansionsAreWindows(raw: string)
    ensures CaretRange(raw).Some? ==> IsWindow(CaretRange(raw).value)
    ensures TildeRange(raw).Some? ==> IsWindow(TildeRange(raw).value)
    ensures XRange(raw).Some? ==> XRange(raw).value == [Comparator(Ge, ZERO)] || IsWindow(XRange(raw).value)
  {
    hide ParsePartial, TrimFunc, Split, VersionComponent;
  }

  /** A version at or above a window's floor is in the window exactly when it is below the ceiling. */
  lemma WindowMembers(comps: seq<Comparator>, v: Version)
    requires IsWindow(comps)
    ensures SatisfiesSet(v, comps, true) <==> Compare(comps[0].v, v) <= 0 && Compare(v, comps[1].v) < 0
  {
    Antisymmetric(v, comps[0].v);
    if SatisfiesSet(v, comps, true) {
      assert Satisfies(v, comps[0]) && Satisfies(v, comps[1]);
    }
  }

  /** The left-most non-zero component given, or 0 when there is none. */
  function LeftMost(p: Partial): nat {
    if p.v.major > 0 then p.v.major
    else if p.count >= 2 && p.v.minor > 0 then p.v.minor
    else if p.count == 3 then p.v.patch
    else 0
  }

  /**
   On releases the caret freezes every component up to the left-most non-zero one given, and the
   tilde freezes major and, when it is given, minor. Either is accepted exactly when its partial version is
   and the last component it freezes has a successor.
   */
  lemma CaretAndTildeOnReleases(raw: string, v: Version)
    requires v.prerelease == []
    ensures ParsePartial(raw).None? ==> CaretRange(raw).None? && TildeRange(raw).None?
    ensures ParsePartial(raw).Some? ==>
              var p := ParsePartial(raw).value;
              && (CaretRange(raw).Some? <==> LeftMost(p) < SEMVER_MAX)
              && (TildeRange(raw).Some? <==> (if p.count >= 2 then p.v.minor else p.v.major) < SEMVER_MAX)
              && (CaretRange(raw).Some? ==>
                    (SatisfiesSet(v, CaretRange(raw).value, false) <==>
                     && Compare(p.v, v) <= 0 && v.major == p.v.major
                     && (p.v.major == 0 && p.count >= 2 ==> v.minor == p.v.minor)
                     && (p.v.major == 0 && p.v.minor == 0 && p.count == 3 ==> v.patch == p.v.patch)))
              && (TildeRange(raw).Some? ==>
                    (SatisfiesSet(v, TildeRange(raw).value, false) <==>
                     Compare(p.v, v) <= 0 && v.major == p.v.major && (p.count >= 2 ==> v.minor == p.v.minor)))
  {
    hide ParsePartial, TrimFunc, Split;
    ExpansionsAreWindows(raw);
    if CaretRange(raw).Some? {
      WindowMembers(CaretRange(raw).value, v);
    }
    if TildeRange(raw).Some? {
      WindowMembers(TildeRange(raw).value, v);
    }
  }

  // ----- range expressions -----

  function OpComparator(op: Op, raw: string): Option<seq<Comparator>> {
    match Parse(TrimASCIISpace(raw)) case Some(v) => Some([Comparator(op, v)]) case None => None
  }

  function ExactOrXRange(raw: string): Option<seq<Comparator>> {
    match Parse(TrimASCIISpace(raw)) case Some(v) => Some([Comparator(Eq, v)]) case None => XRange(TrimASCIISpace(raw))
  }

  function ParseComparator(f: string): Option<seq<Comparator>> {
    var c0 := if |f| > 0 then f[0] else ' ';
    var c1 := if |f| > 1 then f[1] else ' ';
    if c0 == '^' then CaretRange(f[1..])
    else if c0 == '~' then TildeRange(f[1..])
    else if c0 == '>' && c1 == '=' then OpComparator(Ge, f[2..])
    else if c0 == '<' && c1 == '=' then OpComparator(Le, f[2..])
    else if c0 == '>' then OpComparator(Gt, f[1..])
    else if c0 == '<' then OpComparator(Lt, f[1..])
    else if c0 == '=' then ExactOrXRange(f[1..])
    else ExactOrXRange(f)
  }

  function RunLength(s: string): (n: nat)
    ensures n <= |s|
    ensures forall i :: 0 <= i < n ==> !IsASCIISpace(s[i])
    ensures n < |s| ==> IsASCIISpace(s[n])
  {
    if s == [] || IsASCIISpace(s[0]) then 0 else 1 + RunLength(s[1..])
  }

  /** strings.FieldsFunc on ASCII whitespace. */
  function Fields(s: string): seq<string> {
    if s == [] then []
    else if IsASCIISpace(s[0]) then Fields(s[1..])
    else [s[..RunLength(s)]] + Fields(s[RunLength(s)..])
  }

  function ParseFields(fields: seq<string>): Option<seq<Comparator>> {
    if fields == [] then Some([])
    else match ParseComparator(fields[0])
         case Some(cs) => Prepend(cs, ParseFields(fields[1..]))
         case None => None
  }

  function FieldIndex(fields: seq<string>, target: string): (i: int)
    ensures -1 <= i < |fields|
    ensures i < 0 <==> target !in fields
  {
    if fields == [] then -1
    else if fields[0] == target then 0
    else
      var r := FieldIndex(fields[1..], target);
      if r < 0 then -1 else r + 1
  }

  function ParseComparatorSet(set_: string): (r: Option<seq<Comparator>>) {
    if set_ == "" || set_ == "*" then Some([Comparator(Ge, ZERO)])
    else
      var fields := Fields(set_);
      var hyphen := FieldIndex(fields, "-");
      if hyphen >= 0 then
        if hyphen != 1 || |fields| != 3 then None
        else match (Parse(fields[0]), Parse(fields[2]))
          case (Some(lo), Some(hi)) => Some([Comparator(Ge, lo), Comparator(Le, hi)])
          case _ => None
      else match ParseFields(fields)
        case Some(comps) => if comps == [] then None else Some(comps)
        case None => None
  }

  /** parseComparatorSet's loop over the fields. */
  method ReadComparatorSet(set_: string) returns (r: Option<seq<Comparator>>)
    ensures r == ParseComparatorSet(set_)
  {
    hide Parse, Fields, ParseComparator, FieldIndex;
    if set_ == "" || set_ == "*" {
      return Some([Comparator(Ge, ZERO)]);
    }
    var fields := Fields(set_);
    var hyphen := FieldIndex(fields, "-");
    if hyphen >= 0 {
      if hyphen != 1 || |fields| != 3 {
        return None;
      }
      var lo, hi := Parse(fields[0]), Parse(fields[2]);
      if lo.None? || hi.None? {
        return None;
      }
      return Some([Comparator(Ge, lo.value), Comparator(Le, hi.value)]);
    }
    var out: seq<Comparator> := [];
    PrependTwice([], [], ParseFields(fields));
    assert fields[0..] == fields;
    for i := 0 to |fields|
      invariant ParseFields(fields) == Prepend(out, ParseFields(fields[i..]))
    {
      assert fields[i..][1..] == fields[i + 1..];
      var cs := ParseComparator(fields[i]);
      if cs.None? {
        return None;
      }
      PrependTwice(out, cs.value, ParseFields(fields[i + 1..]));
      out := out + cs.value;
    }
    assert out + [] == out;
    if out == [] {
      return None;
    }
    return Some(out);
  }

  /** strings.Split(s, "||"). */
  function SplitUnion(s: string): (parts: seq<string>)
    ensures |parts| >= 1
    ensures '|' !in s ==> parts == [s]
  {
    if s == [] then [[]]
    else if s[0] == '|' && "||" <= s then [[]] + SplitUnion(s[2..])
    else
      var rest := SplitUnion(s[1..]);
      assert [s[0]] + s[1..] == s;
      [[s[0]] + rest[0]] + rest[1..]
  }

  predicate ParsesWholly(sets: seq<string>) {
    forall i :: 0 <= i < |sets| ==> ParseComparatorSet(TrimASCIISpace(sets[i])).Some?
  }

  predicate AnySatisfied(v: Version, sets: seq<string>, includePrerelease: bool)
    requires ParsesWholly(sets)
  {
    exists i :: 0 <= i < |sets| && SatisfiesSet(v, ParseComparatorSet(TrimASCIISpace(sets[i])).value, includePrerelease)
  }

  /** npmVersionInRangeOpt: None when the version or any set is outside the grammar. */
  function InRange(ver: string, expr: string, includePrerelease: bool): (r: Option<bool>) {
    if Parse(ver).None? || !ParsesWholly(SplitUnion(expr)) then None
    else Some(AnySatisfied(Parse(ver).value, SplitUnion(expr), includePrerelease))
  }

  /** npmVersionInRangeOpt's loop over the union. */
  method MatchRange(ver: string, expr: string, includePrerelease: bool) returns (r: Option<bool>)
    ensures r == InRange(ver, expr, includePrerelease)
  {
    hide Parse, SplitUnion, ParseComparatorSet, TrimFunc, SatisfiesSet;
    var v := Parse(ver);
    if v.None? {
      return None;
    }
    var sets := SplitUnion(expr);
    var matchedAny := false;
    for i := 0 to |sets|
      invariant forall k :: 0 <= k < i ==> ParseComparatorSet(TrimASCIISpace(sets[k])).Some?
      invariant matchedAny <==> exists k ::
              0 <= k < i && SatisfiesSet(v.value, ParseComparatorSet(TrimASCIISpace(sets[k])).value, includePrerelease)
    {
      var comps := ReadComparatorSet(TrimASCIISpace(sets[i]));
      if comps.None? {
        return None;
      }
      if SatisfiesSet(v.value, comps.value, includePrerelease) {
        matchedAny := true;
      }
    }
    return Some(matchedAny);
  }

  /** npmVersionOutsideRange: the single upper-exclusive bound. None is the source's ok=false. */
  function OutsideUpper(ver: string, upper: string): (r: Option<bool>) {
    match (Parse(ver), Parse(upper))
    case (Some(a), Some(b)) => Some(Compare(a, b) >= 0)
    case _ => None
  }

  /** npmDisqualifyOutside: a plain version is an upper bound, anything else a range expression. */
  function DisqualifyOutside(ver: string, bound: string): (r: Option<bool>) {
    if Parse(bound).Some? then OutsideUpper(ver, bound)
    else match InRange(ver, bound, true) case Some(inRange) => Some(!inRange) case None => None
  }

  /** Over a whole expression, isolation never admits more and never changes a release's answer. */
  lemma IsolationNeverAdmitsMore(ver: string, expr: string)
    ensures InRange(ver, expr, false).None? <==> InRange(ver, expr, true).None?
    ensures InRange(ver, expr, false) == Some(true) ==> InRange(ver, expr, true) == Some(true)
    ensures Parse(ver).Some? && Parse(ver).value.prerelease == [] ==>
            InRange(ver, expr, false) == InRange(ver, expr, true)
  {
    hide Parse, SplitUnion, ParsesWholly, AnySatisfied;
    if Parse(ver).Some? && ParsesWholly(SplitUnion(expr)) {
      IsolatedUnion(Parse(ver).value, SplitUnion(expr));
    }
  }

  lemma IsolatedUnion(v: Version, sets: seq<string>)
    requires ParsesWholly(sets)
    ensures AnySatisfied(v, sets, false) ==> AnySatisfied(v, sets, true)
    ensures v.prerelease == [] ==> (AnySatisfied(v, sets, true) ==> AnySatisfied(v, sets, false))
  {
    hide ParseComparatorSet, SatisfiesSet, TrimASCIISpace;
    forall i | 0 <= i < |sets|
      ensures var comps := ParseComparatorSet(TrimASCIISpace(sets[i])).value;
              && (SatisfiesSet(v, comps, false) ==> SatisfiesSet(v, comps, true))
              && (v.prerelease == [] && SatisfiesSet(v, comps, true) ==> SatisfiesSet(v, comps, false))
    {
      IsolationRemovesPrereleases(v, ParseComparatorSet(TrimASCIISpace(sets[i])).value);
    }
  }

  /** A bound with no union, plain or range, disqualifies a convex complement: what lies between two
      versions it keeps is kept. */
  lemma KeptVersionsAreConvex(a: string, b: string, c: string, bound: string)
    requires '|' !in bound
    requires Parse(a).Some? && Parse(b).Some? && Parse(c).Some?
    requires Compare(Parse(a).value, Parse(b).value) <= 0 && Compare(Parse(b).value, Parse(c).value) <= 0
    requires DisqualifyOutside(a, bound) == Some(false) && DisqualifyOutside(c, bound) == Some(false)
    ensures DisqualifyOutside(b, bound) == Some(false)
  {
    hide Parse, ParseComparatorSet, TrimFunc, SplitUnion, SatisfiesSet, Compare;
    var x, y, z := Parse(a).value, Parse(b).value, Parse(c).value;
    if Parse(bound).Some? {
      Transitive(y, z, Parse(bound).value);
    } else {
      var sets := SplitUnion(bound);
      assert sets == [bound];
      var comps := ParseComparatorSet(TrimASCIISpace(sets[0])).value;
      SetIsConvex(comps, x, y, z);
    }
  }

  // ----- a plain bound X and the range "<X" -----

  predicate IsVersionChar(c: char) {
    IsIdentifierChar(c) || c == '.' || c == '+'
  }

  lemma IdentifiersChars(s: string, prerelease: bool)
    requires ValidIdentifiers(s, prerelease)
    ensures forall k :: 0 <= k < |s| ==> IsVersionChar(s[k])
  {
    SplitChars(s, '.', IsIdentifierChar);
  }

  lemma ComponentsChars(core: string)
    requires forall i :: 0 <= i < |Split(core, '.')| ==> VersionComponent(Split(core, '.')[i]).Some?
    ensures forall k :: 0 <= k < |core| ==> IsVersionChar(core[k])
  {
    hide Split;
    var parts := Split(core, '.');
    forall i, k | 0 <= i < |parts| && 0 <= k < |parts[i]| ensures IsIdentifierChar(parts[i][k]) {
      assert VersionComponent(parts[i]).Some?;
      AtoiChars(parts[i], k);
    }
    SplitChars(core, '.', IsIdentifierChar);
  }

  lemma CoreChars(s: string)
    requires ParseCore(s).Some?
    ensures forall k :: 0 <= k < |s| ==> IsVersionChar(s[k])
  {
    hide Split, VersionComponent, ValidIdentifiers, IsIdentifierChar;
    var dash := IndexOf(s, '-');
    var core := if dash >= 0 then s[..dash] else s;
    ComponentsChars(core);
    if dash >= 0 {
      var pre := s[dash + 1..];
      if pre != "" {
        IdentifiersChars(pre, true);
      }
      DashIsVersionChar();
      CharsAround(s, dash);
    }
  }

  lemma DashIsVersionChar()
    ensures IsVersionChar('-')
  {
  }

  lemma CharsAround(s: string, at: nat)
    requires at < |s| && IsVersionChar(s[at])
    requires var before := s[..at]; forall k :: 0 <= k < |before| ==> IsVersionChar(before[k])
    requires var after := s[at + 1..]; forall k :: 0 <= k < |after| ==> IsVersionChar(after[k])
    ensures forall k :: 0 <= k < |s| ==> IsVersionChar(s[k])
  {
    forall k | 0 <= k < |s| ensures IsVersionChar(s[k]) {
      if k < at { assert s[k] == s[..at][k]; } else if k > at { assert s[k] == s[at + 1..][k - at - 1]; }
    }
  }

  lemma BareChars(s: string)
    requires ParseBare(s).Some?
    ensures s != "" && forall k :: 0 <= k < |s| ==> IsVersionChar(s[k])
  {
    hide ParseCore, ValidIdentifiers;
    var plus := IndexOf(s, '+');
    if plus >= 0 {
      IdentifiersChars(s[plus + 1..], false);
      CoreChars(s[..plus]);
      assert IsVersionChar('+');
      CharsAround(s, plus);
    } else {
      CoreChars(s);
    }
  }

  /** A text that parses is made of version characters once the blanks around it are gone. */
  lemma ParsedChars(x: string)
    requires Parse(x).Some?
    ensures TrimASCIISpace(x) != ""
    ensures forall k :: 0 <= k < |TrimASCIISpace(x)| ==> IsVersionChar(TrimASCIISpace(x)[k])
  {
    hide TrimFunc, ParseBare;
    var t := TrimASCIISpace(x);
    var s := TrimPrefix(t, "v");
    BareChars(s);
    if "v" <= t {
      assert forall k :: 1 <= k < |t| ==> t[k] == s[k - 1];
    }
  }

  /** Blanks behind a text that does not end in one are what trimming takes away. */
  lemma TrimRightOf(s: string, blanks: string)
    requires s != "" && !IsASCIISpace(s[|s| - 1])
    requires forall k :: 0 <= k < |blanks| ==> IsASCIISpace(blanks[k])
    ensures TrimRight(s + blanks, IsASCIISpace) == s
  {
    hide TrimRight, IsASCIISpace;
    var r := TrimRight(s + blanks, IsASCIISpace);
    assert s[|s| - 1] == (s + blanks)[|s| - 1];
    assert forall k :: |s| <= k < |s + blanks| ==> (s + blanks)[k] == blanks[k - |s|];
  }

  /** A text that parses is its version characters with blanks in front of and behind them. */
  lemma Surrounded(x: string) returns (front: string, t: string, behind: string)
    requires Parse(x).Some?
    ensures x == front + t + behind && t == TrimASCIISpace(x) && t != ""
    ensures forall k :: 0 <= k < |front| ==> IsASCIISpace(front[k])
    ensures forall k :: 0 <= k < |behind| ==> IsASCIISpace(behind[k])
    ensures forall k :: 0 <= k < |t| ==> IsVersionChar(t[k])
  {
    hide TrimLeft, TrimRight, Parse;
    ParsedChars(x);
    var left := TrimLeft(x, IsASCIISpace);
    t := TrimRight(left, IsASCIISpace);
    front, behind := x[..|x| - |left|], left[|t|..];
    assert left == t + behind;
    assert x == front + left;
  }

  lemma {:induction false} WholeField(s: string)
    requires s != [] && forall k :: 0 <= k < |s| ==> !IsASCIISpace(s[k])
    ensures Fields(s) == [s]
  {
    assert RunLength(s) == |s|;
    assert s[..|s|] == s && s[|s|..] == [];
  }

  lemma {:induction false} FieldsAfterBlanks(blanks: string, s: string)
    requires forall k :: 0 <= k < |blanks| ==> IsASCIISpace(blanks[k])
    ensures Fields(blanks + s) == Fields(s)
  {
    if blanks == [] {
      assert blanks + s == s;
    } else {
      FieldsAfterBlanks(blanks[1..], s);
      assert (blanks + s)[1..] == blanks[1..] + s;
    }
  }

  lemma ParseTrimmed(x: string)
    ensures Parse(TrimASCIISpace(x)) == Parse(x)
  {
    hide ParseBare, TrimPrefix;
    var left := TrimLeft(x, IsASCIISpace);
    var t := TrimRight(left, IsASCIISpace);
    if t != [] { assert t[0] == left[0]; }
  }

  lemma TrimBehindOperator(front: string, t: string, behind: string)
    requires t != "" && !IsASCIISpace(t[|t| - 1])
    requires forall k :: 0 <= k < |behind| ==> IsASCIISpace(behind[k])
    ensures TrimASCIISpace("<" + (front + t + behind)) == "<" + (front + t)
  {
    hide TrimRight, TrimLeft, IsASCIISpace;
    var expr := "<" + (front + t + behind);
    var head := "<" + (front + t);
    assert expr == head + behind;
    assert head[|head| - 1] == t[|t| - 1];
    OperatorIsKept(expr);
    TrimRightOf(head, behind);
  }

  lemma OperatorIsKept(expr: string)
    requires expr != "" && expr[0] == '<'
    ensures TrimLeft(expr, IsASCIISpace) == expr
  {
  }

  /** "<" in front of a text leaves no version, so the bound is read as a range expression. */
  lemma OperatorIsNoVersion(front: string, t: string, behind: string)
    requires t != "" && forall k :: 0 <= k < |t| ==> IsVersionChar(t[k])
    requires forall k :: 0 <= k < |behind| ==> IsASCIISpace(behind[k])
    ensures Parse("<" + (front + t + behind)).None?
  {
    hide Parse, TrimFunc;
    var expr := "<" + (front + t + behind);
    assert !IsASCIISpace(t[|t| - 1]);
    TrimBehindOperator(front, t, behind);
    assert !IsVersionChar('<') && TrimASCIISpace(expr)[0] == '<';
    if Parse(expr).Some? {
      ParsedChars(expr);
      assert false;
    }
  }

  lemma BoundAfterOperator(t: string)
    requires t != "" && Parse(t).Some?
    requires forall k :: 0 <= k < |t| ==> IsVersionChar(t[k])
    ensures ParseComparatorSet("<" + t) == Some([Comparator(Lt, Parse(t).value)])
  {
    hide Parse, Fields, CaretRange, TildeRange, ExactOrXRange, TrimFunc;
    var f := "<" + t;
    assert forall k :: 1 <= k < |f| ==> f[k] == t[k - 1];
    WholeField(f);
    ParseTrimmed(t);
    assert f[1..] == t;
    assert f[0] == '<' && f[1] == t[0];
    var cs := [Comparator(Lt, Parse(t).value)];
    assert ParseComparator(f) == Some(cs);
    assert [f][1..] == [] && [f][0] == f;
    assert ParseFields([f][1..]) == Some([]);
    assert ParseFields([f]) == Prepend(cs, Some([]));
    assert cs + [] == cs;
  }

  lemma BlankAfterOperator(front: string, t: string)
    requires t != "" && front != ""
    requires forall k :: 0 <= k < |front| ==> IsASCIISpace(front[k])
    requires forall k :: 0 <= k < |t| ==> IsVersionChar(t[k])
    ensures ParseComparatorSet("<" + (front + t)).None?
  {
    hide Fields, ParseComparator;
    OperatorAlone(front, t);
    BareOperator();
    var fields := ["<", t];
    assert t != "-" ==> FieldIndex(fields, "-") < 0;
    assert t == "-" ==> FieldIndex(fields, "-") != 1 || |fields| != 3;
    assert ParseFields(fields) == None;
  }

  /** "<" with a blank behind it is a field of its own. */
  lemma OperatorAlone(front: string, t: string)
    requires t != "" && front != ""
    requires forall k :: 0 <= k < |front| ==> IsASCIISpace(front[k])
    requires forall k :: 0 <= k < |t| ==> IsVersionChar(t[k])
    ensures Fields("<" + (front + t)) == ["<", t]
  {
    var f := "<" + (front + t);
    assert f[1] == front[0] && f[1..] == front + t && f[..1] == "<";
    assert RunLength(f) == 1 by { assert RunLength(f[1..]) == 0; }
    FieldsAfterBlanks(front, t);
    WholeField(t);
  }

  lemma BareOperator()
    ensures ParseComparator("<").None?
  {
    hide ParseCore, CaretRange, TildeRange, ExactOrXRange;
    assert "<"[1..] == "";
    assert TrimPrefix("", "v") == "";
    assert ParseBare("").None?;
  }

  /** A one-member union admits v exactly when its only set does. */
  lemma SingleSet(ver: string, expr: string)
    requires '|' !in expr && Parse(ver).Some?
    ensures InRange(ver, expr, true) ==
            match ParseComparatorSet(TrimASCIISpace(expr))
            case Some(comps) => Some(SatisfiesSet(Parse(ver).value, comps, true))
            case None => None
  {
    hide Parse, ParseComparatorSet, TrimFunc, SatisfiesSet;
    assert SplitUnion(expr) == [expr];
    assert [expr][0] == expr;
  }

  /**
   The documented equivalence, with the exact inputs it holds on: the range branch re-splits its
   text on blanks, so "<" followed by a bound with leading blanks parses as no range at all.
   */
  lemma PlainBoundIsBelowRange(ver: string, x: string)
    requires Parse(x).Some?
    ensures DisqualifyOutside(ver, x) == DisqualifyOutside(ver, "<" + x) <==> Parse(ver).None? || !IsASCIISpace(x[0])
  {
    hide Parse, ParseComparatorSet, TrimFunc, Compare, SplitUnion;
    var front, t, behind := Surrounded(x);
    assert !IsASCIISpace(t[|t| - 1]);
    TrimBehindOperator(front, t, behind);
    OperatorIsNoVersion(front, t, behind);
    if Parse(ver).Some? {
      assert '|' !in "<" + x;
      SingleSet(ver, "<" + x);
      if front == "" {
        assert front + t == t && x[0] == t[0];
        ParseTrimmed(x);
        BoundAfterOperator(t);
        assert [Comparator(Lt, Parse(t).value)][0] == Comparator(Lt, Parse(t).value);
      } else {
        assert x[0] == front[0];
        BlankAfterOperator(front, t);
      }
    }
  }

  // ----- the order, number by number -----

  /** The first of major, minor and patch that differs decides; a prerelease is below its release, and two of one
      release are in the order of their identifiers. */
  lemma OrderIs(a: Version, b: Version)
    ensures Compare(a, b) < 0 <==>
            || a.major < b.major
            || (a.major == b.major && a.minor < b.minor)
            || (a.major == b.major && a.minor == b.minor && a.patch < b.patch)
            || (SameCore(a, b) && a.prerelease != []
                && (b.prerelease == [] || exists k: nat :: Prerelease.PrecedesAt(a.prerelease, b.prerelease, k)))
  {
    hide Prerelease.CompareIDs, Prerelease.PrecedesAt;
    if a.prerelease != [] && b.prerelease != [] {
      Prerelease.PrecedenceIsFirstDifference(a.prerelease, b.prerelease);
    }
  }
}
