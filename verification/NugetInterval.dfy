/** Which accepted NuGet intervals hold a version (pipeline/nuget_version.go). */
module NugetInterval {
  import opened GoStrings
  import Prerelease
  import opened NugetVersion

  // ----- versions as texts -----

  /** What a parsed version is: segments that fit an int and valid prerelease identifiers. */
  predicate WellFormed(v: Version) {
    && v.major <= MAX_INT64 && v.minor <= MAX_INT64 && v.patch <= MAX_INT64 && v.revision <= MAX_INT64
    && ValidPrerelease(v.prerelease)
  }

  function Parts(v: Version): seq<string> {
    [Itoa(v.major), Itoa(v.minor), Itoa(v.patch), Itoa(v.revision)]
  }

  function CoreText(v: Version): string {
    Join(Parts(v), '.')
  }

  function Text(v: Version): string {
    CoreText(v) + if v.prerelease == [] then "" else "-" + Join(v.prerelease, '.')
  }

  predicate IsCoreChar(c: char) {
    IsDigit(c) || c == '.'
  }

  predicate IsTextChar(c: char) {
    IsDigit(c) || IsLower(c) || c == '-' || c == '.'
  }

  lemma CoreTextSplits(v: Version)
    ensures Split(CoreText(v), '.') == Parts(v) && CoreText(v) != ""
    ensures forall k :: 0 <= k < |CoreText(v)| ==> IsCoreChar(CoreText(v)[k])
  {
    hide Itoa, Split;
    var parts := Parts(v);
    assert forall i :: 0 <= i < 4 ==> AllDigits(parts[i]) && '.' !in parts[i];
    SplitJoin(parts, '.');
    JoinChars(parts, '.', IsDigit);
  }

  lemma CoreReadsBack(v: Version)
    requires WellFormed(v)
    ensures Core(CoreText(v)) == Some(v.(prerelease := []))
  {
    hide Itoa, Split, CoreText, AtoiNonNeg;
    CoreTextSplits(v);
    AtoiItoa(v.major);
    AtoiItoa(v.minor);
    AtoiItoa(v.patch);
    AtoiItoa(v.revision);
    SegmentsOfFour(Parts(v), v.major, v.minor, v.patch, v.revision);
  }

  lemma SegmentsOfFour(parts: seq<string>, a: nat, b: nat, c: nat, d: nat)
    requires |parts| == 4 && AtoiNonNeg(parts[0]) == Some(a) && AtoiNonNeg(parts[1]) == Some(b)
    requires AtoiNonNeg(parts[2]) == Some(c) && AtoiNonNeg(parts[3]) == Some(d)
    ensures Segments(parts) == Some([a, b, c, d])
  {
    hide AtoiNonNeg;
    assert Segments([]) == Some([]);
    var last: seq<string> := [parts[3]];
    assert last[1..] == [];
    assert Segments(last) == Some([d] + []) && [d] + [] == [d];
    assert parts[2..][1..] == last;
    assert Segments(parts[2..]) == Some([c] + [d]) && [c] + [d] == [c, d];
    assert parts[1..][1..] == parts[2..];
    assert Segments(parts[1..]) == Some([b] + [c, d]) && [b] + [c, d] == [b, c, d];
    assert [a] + [b, c, d] == [a, b, c, d];
  }

  lemma PrereleaseReadsBack(ids: seq<string>)
    requires ids != [] && ValidPrerelease(ids)
    ensures var s := Join(ids, '.'); s != "" && ToLower(s) == s && Split(s, '.') == ids
    ensures forall k :: 0 <= k < |Join(ids, '.')| ==> IsTextChar(Join(ids, '.')[k])
  {
    hide Split;
    assert forall i, k :: 0 <= i < |ids| && 0 <= k < |ids[i]| ==> IsTextChar(ids[i][k]);
    assert forall i :: 0 <= i < |ids| ==> '.' !in ids[i];
    SplitJoin(ids, '.');
    JoinChars(ids, '.', IsTextChar);
    var s := Join(ids, '.');
    assert ids[0] != "";
    assert forall k :: 0 <= k < |s| ==> IsTextChar(s[k]) && LowerChar(s[k]) == s[k];
    assert ToLower(s) == s;
  }

  lemma TextChars(v: Version)
    requires WellFormed(v)
    ensures Text(v) != "" && forall k :: 0 <= k < |Text(v)| ==> IsTextChar(Text(v)[k])
  {
    hide Split, ToLower, CoreText, Join;
    CoreTextSplits(v);
    if v.prerelease != [] {
      PrereleaseReadsBack(v.prerelease);
    }
  }

  lemma TrimmedText(s: string)
    requires s != "" && forall k :: 0 <= k < |s| ==> IsTextChar(s[k])
    ensures TrimSpace(s) == s && AllowedChars(s) && IndexOf(s, '+') < 0 && !IsFloating(s) && ',' !in s
  {
    hide TrimFunc, IndexOf;
    TrimNothing(s, IsSpace);
  }

  /** Every well-formed version has a text that parses back to it. */
  lemma TextReadsBack(v: Version)
    requires WellFormed(v)
    ensures Parse(Text(v)) == Some(v) && !IsFloating(Text(v))
  {
    hide WellFormed, Core, IndexOf, TrimFunc, AllowedChars, Split, ToLower, CoreText, Join, ValidPrerelease;
    TextChars(v);
    TrimmedText(Text(v));
    WellFormedParts(v);
    CoreReadsBack(v);
    CoreTextSplits(v);
    var s, core := Text(v), CoreText(v);
    assert '-' !in core;
    if v.prerelease == [] {
      assert s == core;
    } else {
      var pre := Join(v.prerelease, '.');
      PrereleaseReadsBack(v.prerelease);
      assert s == core + ['-'] + pre;
      FirstIndex(core, '-', pre);
      assert s[..|core|] == core && s[|core| + 1..] == pre;
    }
  }

  lemma WellFormedParts(v: Version)
    requires WellFormed(v)
    ensures ValidPrerelease(v.prerelease)
  {
  }

  lemma ParsedIsWellFormed(s: string)
    requires Parse(s).Some?
    ensures WellFormed(Parse(s).value)
  {
    hide TrimFunc, ToLower, AllowedChars, Split, Core, ValidPrerelease;
    var t := TrimSpace(s);
    var plus := IndexOf(t, '+');
    var text := if plus >= 0 then t[..plus] else t;
    var dash := IndexOf(text, '-');
    CoreFits(if dash >= 0 then text[..dash] else text);
  }

  lemma CoreFits(core: string)
    requires Core(core).Some?
    ensures var v := Core(core).value;
            v.prerelease == [] && WellFormed(v)
            && forall ids :: ValidPrerelease(ids) ==> WellFormed(v.(prerelease := ids))
  {
    hide Split;
    SegmentsBounded(Split(core, '.'));
  }

  lemma {:induction false} SegmentsBounded(parts: seq<string>)
    requires Segments(parts).Some?
    ensures forall i :: 0 <= i < |parts| ==> Segments(parts).value[i] <= MAX_INT64
  {
    if parts != [] {
      SegmentsBounded(parts[1..]);
    }
  }

  // ----- the version right above another -----

  const LEAST := Version(0, 0, 0, 0, ["0"])

  /** The least well-formed version above v, if there is one. */
  function Next(v: Version): Option<Version> {
    if v.prerelease != [] then Some(v.(prerelease := v.prerelease + ["0"]))
    else if v.revision < MAX_INT64 then Some(Version(v.major, v.minor, v.patch, v.revision + 1, ["0"]))
    else if v.patch < MAX_INT64 then Some(Version(v.major, v.minor, v.patch + 1, 0, ["0"]))
    else if v.minor < MAX_INT64 then Some(Version(v.major, v.minor + 1, 0, 0, ["0"]))
    else if v.major < MAX_INT64 then Some(Version(v.major + 1, 0, 0, 0, ["0"]))
    else None
  }

  lemma ZeroIsLeast(id: string)
    ensures Prerelease.CompareID("0", id) <= 0 && ValidPrereleaseID("0")
  {
    hide AtoiNonNeg;
    ZeroSegment();
  }

  lemma ZeroListIsLeast(ids: seq<string>)
    ensures Prerelease.Compare(["0"], ids) <= 0
  {
    if ids != [] {
      ZeroIsLeast(ids[0]);
      assert Prerelease.CompareIDs(["0"][1..], ids[1..]) <= 0;
    }
  }

  /** Right above a list of identifiers is the list with "0" behind it. */
  lemma {:induction false} ExtendedIsNext(p: seq<string>, q: seq<string>)
    ensures Prerelease.CompareIDs(p, p + ["0"]) < 0
    ensures Prerelease.CompareIDs(p, q) < 0 <==> Prerelease.CompareIDs(p + ["0"], q) <= 0
  {
    hide Prerelease.CompareID;
    if p == [] {
      assert p + ["0"] == ["0"] && ["0"][1..] == [];
      if q != [] {
        ZeroIsLeast(q[0]);
      }
    } else {
      assert (p + ["0"])[1..] == p[1..] + ["0"] && (p + ["0"])[0] == p[0];
      Prerelease.IDAntisymmetric(p[0], p[0]);
      ExtendedIsNext(p[1..], if q == [] then [] else q[1..]);
    }
  }

  /** Above v is at or above the version next to v; and nothing well-formed is above a version without one. */
  lemma NextIsNext(v: Version, w: Version)
    requires WellFormed(v) && WellFormed(w)
    ensures Next(v).None? ==> Compare(w, v) <= 0
    ensures Next(v).Some? ==>
              WellFormed(Next(v).value) && (Compare(v, w) < 0 <==> Compare(Next(v).value, w) <= 0)
  {
    hide Prerelease.CompareIDs, ValidPrereleaseID, AtoiNonNeg;
    ZeroIsLeast("");
    ZeroListIsLeast(w.prerelease);
    ExtendedIsNext(v.prerelease, w.prerelease);
  }

  lemma LeastIsLeast(w: Version)
    ensures WellFormed(LEAST) && Compare(LEAST, w) <= 0
  {
    hide Prerelease.Compare, ValidPrereleaseID, AtoiNonNeg;
    ZeroIsLeast("");
    ZeroListIsLeast(w.prerelease);
  }

  // ----- which intervals hold a version -----

  /** The least version a lower bound admits, if any. */
  function LeastAbove(lo: Bound): Option<Version> {
    match lo
    case Unbounded => Some(LEAST)
    case Bound(v, inclusive) => if inclusive then Some(v) else Next(v)
  }

  /** The interval ends exactly where it would begin, or begins where versions end. */
  predicate Empty(iv: Interval) {
    match LeastAbove(iv.lo)
    case None => true
    case Some(v) => iv.hi.Bound? && !iv.hi.inclusive && Compare(v, iv.hi.v) == 0
  }

  predicate FittingBound(b: Bound) {
    b.Bound? ==> WellFormed(b.v)
  }

  lemma ParsedBounds(expr: string)
    requires ParseInterval(expr).Some?
    ensures var iv := ParseInterval(expr).value;
            FittingBound(iv.lo) && FittingBound(iv.hi) && MakeInterval(iv.lo, iv.hi) == Some(iv)
  {
    hide Parse, TrimSpace, IndexOf, WellFormed, Compare;
    forall s | Parse(s).Some? ensures WellFormed(Parse(s).value) && Compare(Parse(s).value, Parse(s).value) == 0 {
      ParsedIsWellFormed(s);
      Antisymmetric(Parse(s).value, Parse(s).value);
    }
  }

  /** What a lower bound admits begins with LeastAbove. */
  lemma LeastAboveIsLeast(iv: Interval, w: Version)
    requires FittingBound(iv.lo) && WellFormed(w)
    ensures LeastAbove(iv.lo).None? ==> !AboveLo(iv, w)
    ensures LeastAbove(iv.lo).Some? ==>
              WellFormed(LeastAbove(iv.lo).value) && (AboveLo(iv, w) <==> Compare(LeastAbove(iv.lo).value, w) <= 0)
  {
    hide WellFormed, Compare, Next;
    if iv.lo.Bound? {
      Antisymmetric(iv.lo.v, w);
      NextIsNext(iv.lo.v, w);
    } else {
      LeastIsLeast(w);
    }
  }

  /** Of the versions that can be parsed, an accepted interval holds none exactly when it is empty in this sense. */
  lemma EmptyIsExact(iv: Interval)
    requires FittingBound(iv.lo) && FittingBound(iv.hi) && MakeInterval(iv.lo, iv.hi) == Some(iv)
    ensures Empty(iv) <==> forall w :: WellFormed(w) ==> !Contains(iv, w)
  {
    hide WellFormed, Compare, LeastAbove, AboveLo;
    var least := LeastAbove(iv.lo);
    forall w | WellFormed(w) && Contains(iv, w) ensures !Empty(iv) {
      LeastAboveIsLeast(iv, w);
      if iv.hi.Bound? { NotBelow(least.value, w, iv.hi.v); }
    }
    if !Empty(iv) {
      var v := least.value;
      LeastIsAdmitted(iv);
      if iv.hi.Bound? { LeastIsBelowHi(iv); }
      assert Contains(iv, v);
    }
  }

  lemma NotBelow(a: Version, b: Version, c: Version)
    requires Compare(a, b) <= 0
    ensures Compare(a, c) == 0 ==> Compare(b, c) >= 0
  {
    hide Compare;
    Antisymmetric(a, c);
    Antisymmetric(b, c);
    if Compare(b, c) < 0 { Transitive(a, b, c); }
  }

  lemma LeastIsAdmitted(iv: Interval)
    requires FittingBound(iv.lo) && LeastAbove(iv.lo).Some?
    ensures WellFormed(LeastAbove(iv.lo).value) && AboveLo(iv, LeastAbove(iv.lo).value)
  {
    hide WellFormed, Compare, LeastAbove, AboveLo;
    LeastIsLeast(LEAST);
    LeastAboveIsLeast(iv, LEAST);
    var v := LeastAbove(iv.lo).value;
    LeastAboveIsLeast(iv, v);
    Antisymmetric(v, v);
  }

  /** The upper bound of an accepted interval is nowhere below where the lower one begins. */
  lemma LeastIsBelowHi(iv: Interval)
    requires FittingBound(iv.lo) && FittingBound(iv.hi) && MakeInterval(iv.lo, iv.hi) == Some(iv)
    requires iv.hi.Bound? && LeastAbove(iv.lo).Some?
    ensures Compare(LeastAbove(iv.lo).value, iv.hi.v) <= 0
  {
    hide WellFormed, Compare, Next;
    if iv.lo.Bound? {
      NextIsNext(iv.lo.v, iv.hi.v);
    } else {
      LeastIsLeast(iv.hi.v);
    }
  }

  /** An interval the source accepts holds no version text exactly when it is empty in that sense. */
  lemma NoVersionIsIn(expr: string)
    requires !IsFloating(expr) && AllowedChars(expr) && ParseInterval(TrimSpace(expr)).Some?
    ensures Empty(ParseInterval(TrimSpace(expr)).value) <==> forall ver :: InRange(ver, expr) != Some(true)
  {
    hide Parse, TrimSpace, ParseInterval, AllowedChars, IsFloating, WellFormed, Text, Contains, Empty;
    var iv := ParseInterval(TrimSpace(expr)).value;
    ParsedBounds(TrimSpace(expr));
    EmptyIsExact(iv);
    forall ver | Parse(ver).Some? ensures WellFormed(Parse(ver).value) {
      ParsedIsWellFormed(ver);
    }
    if !Empty(iv) {
      var w :| WellFormed(w) && Contains(iv, w);
      TextReadsBack(w);
      assert InRange(Text(w), expr) == Some(true);
    }
  }

  /** Such an interval is accepted: any version and the one right above it, both excluded. */
  lemma EmptyIntervalsAreAccepted(v: Version, ver: string)
    requires WellFormed(v) && Next(v).Some?
    ensures var expr := "(" + Text(v) + "," + Text(Next(v).value) + ")";
            InRange(ver, expr) == if IsFloating(ver) || Parse(ver).None? then None else Some(false)
  {
    hide Parse, TrimSpace, ParseInterval, WellFormed, Text, Contains, Next, Empty;
    var n := Next(v).value;
    var expr := "(" + Text(v) + "," + Text(n) + ")";
    OpenIntervalReads(v, n);
    var iv := Interval(Bound(v, false), Bound(n, false));
    EmptyIsExact(iv);
    assert Empty(iv) by { NextIsEmpty(v); }
    if Parse(ver).Some? { ParsedIsWellFormed(ver); }
  }

  lemma NextIsEmpty(v: Version)
    requires Next(v).Some?
    ensures Empty(Interval(Bound(v, false), Bound(Next(v).value, false)))
  {
    hide Compare, Next;
    Antisymmetric(Next(v).value, Next(v).value);
  }

  lemma OpenIntervalReads(v: Version, n: Version)
    requires WellFormed(v) && Next(v) == Some(n)
    ensures var expr := "(" + Text(v) + "," + Text(n) + ")";
            && !IsFloating(expr) && AllowedChars(expr) && TrimSpace(expr) == expr
            && ParseInterval(expr) == Some(Interval(Bound(v, false), Bound(n, false)))
    ensures WellFormed(n) && MakeInterval(Bound(v, false), Bound(n, false)).Some?
  {
    hide Parse, TrimFunc, IndexOf, WellFormed, Text, Compare, Next;
    NextIsNext(v, v);
    NextIsNext(v, n);
    Antisymmetric(n, n);
    TextReadsBack(v);
    TextReadsBack(n);
    TextChars(v);
    TextChars(n);
    TrimmedText(Text(v));
    TrimmedText(Text(n));
    var inner := Text(v) + [','] + Text(n);
    FirstIndex(Text(v), ',', Text(n));
    var expr := "(" + Text(v) + "," + Text(n) + ")";
    assert expr[1..|expr| - 1] == inner;
    assert inner[..|Text(v)|] == Text(v) && inner[|Text(v)| + 1..] == Text(n);
    TrimNothing(expr, IsSpace);
  }

  // ----- build metadata and floating versions -----

  const SIGNS := ".-+*,[]() \t"

  /** The characters a version or an interval is written in. */
  predicate IsWritable(c: char) {
    '0' <= c <= '9' || 'A' <= c <= 'Z' || 'a' <= c <= 'z' || c in SIGNS
  }

  lemma SignsAre(c: char)
    ensures c in SIGNS <==>
            c == '.' || c == '-' || c == '+' || c == '*' || c == ',' || c == '[' || c == ']' || c == '(' || c == ')'
            || c == ' ' || c == '\t'
  {
    assert SIGNS[0] == '.' && SIGNS[1] == '-' && SIGNS[2] == '+' && SIGNS[3] == '*' && SIGNS[4] == ','
      && SIGNS[5] == '[';
    assert SIGNS[6] == ']' && SIGNS[7] == '(' && SIGNS[8] == ')' && SIGNS[9] == ' ' && SIGNS[10] == '\t';
  }

  lemma WritableIsAllowed(s: string)
    ensures AllowedChars(s) <==> forall k :: 0 <= k < |s| ==> IsWritable(s[k])
  {
    forall c ensures IsAllowedChar(c) <==> IsWritable(c) {
      SignsAre(c);
    }
  }

  /** Build metadata is any writable text, and plays no part. */
  lemma BuildReads(v: Version, build: string)
    requires WellFormed(v) && (build != "" ==> !IsSpace(build[|build| - 1]))
    ensures Parse(Text(v) + "+" + build) ==
            if forall k :: 0 <= k < |build| ==> IsWritable(build[k]) then Some(v) else None
  {
    hide WellFormed, Text, TrimFunc, IndexOf, ParseText, AllowedChars, IsWritable;
    var t, s := Text(v), Text(v) + "+" + build;
    TextChars(v);
    TrimmedText(t);
    TextReadsBack(v);
    TrimNothing(s, IsSpace);
    FirstIndex(t, '+', build);
    assert t + ['+'] + build == s && s[..|t|] == t && s[|t|..] == "+" + build;
    AllowedParts(t, build);
  }

  lemma AllowedParts(t: string, build: string)
    requires forall k :: 0 <= k < |t| ==> IsTextChar(t[k])
    ensures AllowedChars(t + "+" + build) <==> forall k :: 0 <= k < |build| ==> IsWritable(build[k])
  {
    WritableIsAllowed(build);
    var s := t + "+" + build;
    assert forall k :: |t| < k < |s| ==> s[k] == build[k - |t| - 1];
    assert forall k :: 0 <= k < |build| ==> build[k] == s[k + |t| + 1];
    assert forall k :: 0 <= k < |t| ==> s[k] == t[k];
    assert s[|t|] == '+';
  }

  /** A star anywhere proves nothing; without one, versions that parse are compared, and nothing else is. */
  lemma FloatingProvesNothing(ver: string, upper: string, expr: string)
    ensures OutsideUpper(ver, upper) ==
            if '*' in ver || '*' in upper || Parse(ver).None? || Parse(upper).None? then None
            else Some(Compare(Parse(ver).value, Parse(upper).value) >= 0)
    ensures '*' in ver || '*' in expr ==> InRange(ver, expr) == None
  {
    hide Parse, Compare;
  }

  // ----- intervals as texts -----

  function BoundText(v: Option<Version>): string {
    if v.Some? then Text(v.value) else ""
  }

  function IntervalText(lo: Option<Version>, loIn: bool, hi: Option<Version>, hiIn: bool): string {
    (if loIn then "[" else "(") + BoundText(lo) + "," + BoundText(hi) + (if hiIn then "]" else ")")
  }

  predicate FittingEnd(v: Option<Version>) {
    v.Some? ==> WellFormed(v.value)
  }

  lemma BoundTextReads(v: Option<Version>, inclusive: bool)
    requires FittingEnd(v)
    ensures var t := BoundText(v);
            && TrimSpace(t) == t && ',' !in t && !IsFloating(t) && (t == "" <==> v.None?)
            && (forall k :: 0 <= k < |t| ==> IsTextChar(t[k]))
            && ParseBound(t, inclusive) == Some(if v.Some? then Bound(v.value, inclusive) else Unbounded)
  {
    hide Text, Parse, TrimFunc, WellFormed;
    if v.Some? {
      TextChars(v.value);
      TrimmedText(Text(v.value));
      TextReadsBack(v.value);
    } else {
      TrimNothing("", IsSpace);
    }
  }

  lemma IntervalParts(a: string, lo: string, hi: string, b: string)
    requires |a| == |b| == 1 && ',' !in lo
    ensures var s := a + lo + "," + hi + b;
            && s[0] == a[0] && s[|s| - 1] == b[0] && |s| > 1
            && var inner := s[1..|s| - 1];
            IndexOf(inner, ',') == |lo| && inner[..|lo|] == lo && inner[|lo| + 1..] == hi
  {
    hide IndexOf;
    var s := a + lo + "," + hi + b;
    var inner := lo + [','] + hi;
    assert s[1..|s| - 1] == inner;
    FirstIndex(lo, ',', hi);
  }

  /** An interval of two optional bounds reads as those bounds, unless it has neither, is inverted, or is one point
      and not closed. */
  lemma IntervalReads(lo: Option<Version>, loIn: bool, hi: Option<Version>, hiIn: bool)
    requires FittingEnd(lo) && FittingEnd(hi)
    ensures var low := if lo.Some? then Bound(lo.value, loIn) else Unbounded;
            var high := if hi.Some? then Bound(hi.value, hiIn) else Unbounded;
            ParseInterval(IntervalText(lo, loIn, hi, hiIn)) ==
            if lo.None? && hi.None? then None
            else if lo.Some? && hi.Some?
                    && (Compare(hi.value, lo.value) < 0 || (Compare(lo.value, hi.value) == 0 && !(loIn && hiIn)))
                         then None
            else Some(Interval(low, high))
  {
    hide BoundText, ParseBound, Parse, TrimSpace, IndexOf, WellFormed, Compare;
    BoundTextReads(lo, loIn);
    BoundTextReads(hi, hiIn);
    var a, b := if loIn then "[" else "(", if hiIn then "]" else ")";
    IntervalParts(a, BoundText(lo), BoundText(hi), b);
    if lo.Some? && hi.Some? {
      Antisymmetric(lo.value, hi.value);
    }
  }

  lemma IntervalIsWritten(lo: Option<Version>, loIn: bool, hi: Option<Version>, hiIn: bool)
    requires FittingEnd(lo) && FittingEnd(hi)
    ensures var s := IntervalText(lo, loIn, hi, hiIn); TrimSpace(s) == s && !IsFloating(s) && AllowedChars(s)
  {
    hide BoundText, TrimFunc, WellFormed, ParseBound, IntervalText;
    BoundTextReads(lo, loIn);
    BoundTextReads(hi, hiIn);
    IntervalChars(lo, loIn, hi, hiIn);
    TrimNothing(IntervalText(lo, loIn, hi, hiIn), IsSpace);
  }

  lemma IntervalChars(lo: Option<Version>, loIn: bool, hi: Option<Version>, hiIn: bool)
    requires forall k :: 0 <= k < |BoundText(lo)| ==> IsTextChar(BoundText(lo)[k])
    requires forall k :: 0 <= k < |BoundText(hi)| ==> IsTextChar(BoundText(hi)[k])
    ensures var s := IntervalText(lo, loIn, hi, hiIn);
            && s != "" && !IsSpace(s[0]) && !IsSpace(s[|s| - 1])
            && forall k :: 0 <= k < |s| ==> IsAllowedChar(s[k]) && s[k] != '*'
  {
    hide BoundText;
  }

  /** An accepted interval admits what is above its lower end and below its upper one, or at one it includes. */
  lemma IntervalAdmits(ver: string, lo: Option<Version>, loIn: bool, hi: Option<Version>, hiIn: bool)
    requires FittingEnd(lo) && FittingEnd(hi) && '*' !in ver && Parse(ver).Some?
    requires ParseInterval(IntervalText(lo, loIn, hi, hiIn)).Some?
    ensures var v := Parse(ver).value;
            InRange(ver, IntervalText(lo, loIn, hi, hiIn)) == Some(
              && (lo.Some? ==> Compare(lo.value, v) < 0 || (loIn && Compare(lo.value, v) == 0))
              && (hi.Some? ==> Compare(v, hi.value) < 0 || (hiIn && Compare(v, hi.value) == 0)))
  {
    hide IntervalText, ParseInterval, Parse, TrimSpace, AllowedChars, WellFormed, Compare;
    IntervalReads(lo, loIn, hi, hiIn);
    IntervalIsWritten(lo, loIn, hi, hiIn);
    if lo.Some? { Antisymmetric(lo.value, Parse(ver).value); }
  }

  /** A version on its own is the least admitted, one in square brackets the only one. */
  lemma SingleVersions(v: Version)
    requires WellFormed(v)
    ensures ParseInterval(Text(v)) == Some(Interval(Bound(v, true), Unbounded))
    ensures ParseInterval("[" + Text(v) + "]") == Some(Interval(Bound(v, true), Bound(v, true)))
    ensures ParseInterval("(" + Text(v) + ")") == None && ParseInterval("[" + Text(v) + ")") == None
    ensures ParseInterval("(" + Text(v) + "]") == None
  {
    hide Text, Parse, TrimFunc, WellFormed;
    TextChars(v);
    TrimmedText(Text(v));
    TextReadsBack(v);
    Bracketed("[", Text(v), "]");
    Bracketed("(", Text(v), ")");
    Bracketed("[", Text(v), ")");
    Bracketed("(", Text(v), "]");
  }

  lemma Bracketed(a: string, t: string, b: string)
    requires |a| == |b| == 1 && ',' !in t
    ensures var s := a + t + b; s[0] == a[0] && s[|s| - 1] == b[0] && s[1..|s| - 1] == t && IndexOf(t, ',') < 0
  {
    hide IndexOf;
  }
}
