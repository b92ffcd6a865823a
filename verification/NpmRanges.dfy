/** What npm range expressions admit, read off their text (pipeline/npm_version.go). */
module NpmRanges {
  import opened GoStrings
  import Prerelease
  import opened NpmVersion
  import opened NpmText

  /** How an operator is written. A version with none in front of it stands for itself. */
  function Symbol(op: Op): string {
    match op
    case Lt => "<"
    case Le => "<="
    case Gt => ">"
    case Ge => ">="
    case Eq => "="
  }

  /** x op v, in the order of versions. */
  predicate Relates(x: Version, op: Op, v: Version) {
    match op
    case Lt => Compare(x, v) < 0
    case Le => Compare(x, v) < 0 || Compare(x, v) == 0
    case Gt => Compare(v, x) < 0
    case Ge => Compare(v, x) < 0 || Compare(x, v) == 0
    case Eq => Compare(x, v) == 0
  }

  /** A prerelease is admitted only beside a bound that is a prerelease of the same release, unless all are. */
  predicate Exempt(x: Version, v: Version, includePrerelease: bool) {
    x.prerelease == [] || includePrerelease || (v.prerelease != [] && SameCore(x, v))
  }

  /** A field: neither empty nor blank anywhere. */
  predicate IsField(s: string) {
    s != "" && forall k :: 0 <= k < |s| ==> !IsASCIISpace(s[k])
  }

  lemma TextIsField(v: Version)
    requires WellFormed(v)
    ensures IsField(Text(v)) && '|' !in Text(v) && Parse(Text(v)) == Some(v) && IsDigit(Text(v)[0]) && |Text(v)| >= 2
  {
    hide Parse, WellFormed, Text;
    TextIsVersionChars(v);
    TextChars(v);
    TextIsLong(v);
  }

  lemma TextIsLong(v: Version)
    ensures |Text(v)| >= 2
  {
    hide Itoa;
    var parts := [Itoa(v.major), Itoa(v.minor), Itoa(v.patch)];
    assert Join(parts, '.') == parts[0] + ['.'] + Join(parts[1..], '.');
  }

  lemma {:induction false} FieldThenBlank(a: string, rest: string)
    requires IsField(a)
    ensures Fields(a + " " + rest) == [a] + Fields(rest)
  {
    var s := a + " " + rest;
    RunIs(a, " " + rest);
    assert a + (" " + rest) == s && s[..|a|] == a && s[|a|..] == " " + rest;
    FieldsAfterBlanks(" ", rest);
  }

  lemma {:induction false} RunIs(a: string, behind: string)
    requires forall k :: 0 <= k < |a| ==> !IsASCIISpace(a[k])
    requires behind == "" || IsASCIISpace(behind[0])
    ensures RunLength(a + behind) == |a|
  {
    if a == "" {
      assert a + behind == behind;
    } else {
      RunIs(a[1..], behind);
      assert (a + behind)[1..] == a[1..] + behind;
    }
  }

  /** What one set admits, without a union. */
  lemma OneSet(ver: string, expr: string, includePrerelease: bool)
    requires '|' !in expr && Parse(ver).Some? && IsTrimmed(expr)
    ensures InRange(ver, expr, includePrerelease) ==
            match ParseComparatorSet(expr)
            case Some(comps) => Some(SatisfiesSet(Parse(ver).value, comps, includePrerelease))
            case None => None
  {
    hide Parse, ParseComparatorSet, TrimFunc, SatisfiesSet;
    TrimNothing(expr, IsASCIISpace);
    assert SplitUnion(expr) == [expr];
    assert [expr][0] == expr;
  }

  predicate IsTrimmed(s: string) {
    s != "" && !IsASCIISpace(s[0]) && !IsASCIISpace(s[|s| - 1])
  }

  /** Fields that are all comparators make the set of them together. */
  lemma OneField(f: string)
    requires IsField(f) && f != "-" && f != "*"
    ensures ParseComparatorSet(f) ==
            match ParseComparator(f) case Some(cs) => if cs == [] then None else Some(cs) case None => None
  {
    hide ParseComparator;
    WholeField(f);
    var fields := [f];
    assert fields[1..] == [];
    assert ParseFields(fields[1..]) == Some([]);
    if ParseComparator(f).Some? {
      assert ParseComparator(f).value + [] == ParseComparator(f).value;
    }
  }

  lemma TwoFields(f: string, g: string)
    requires IsField(f) && IsField(g) && f != "-" && g != "-"
    requires ParseComparator(f).Some? && ParseComparator(g).Some? && ParseComparator(f).value != []
    ensures ParseComparatorSet(f + " " + g) == Some(ParseComparator(f).value + ParseComparator(g).value)
  {
    hide ParseComparator;
    FieldThenBlank(f, g);
    WholeField(g);
    var fields := [f, g];
    assert [f] + [g] == fields && fields[1..] == [g] && [g][1..] == [];
    assert ParseFields([g][1..]) == Some([]);
    assert ParseComparator(g).value + [] == ParseComparator(g).value;
    assert ParseFields([g]) == Some(ParseComparator(g).value);
    assert (f + " " + g)[|f|] == ' ';
  }

  /** An operator in front of a version is that comparator. */
  lemma OperatorReads(op: Op, v: Version)
    requires WellFormed(v)
    ensures ParseComparator(Symbol(op) + Text(v)) == Some([Comparator(op, v)])
    ensures ParseComparator(Text(v)) == Some([Comparator(Eq, v)])
    ensures var f := Symbol(op) + Text(v); IsField(f) && IsTrimmed(f) && '|' !in f && |f| >= 2
  {
    hide Parse, WellFormed, Text, TrimFunc, XRange, CaretRange, TildeRange;
    TextIsField(v);
    var t := Text(v);
    TrimNothing(t, IsASCIISpace);
    var f := Symbol(op) + t;
    assert f[|Symbol(op)|..] == t;
    assert f[|f| - 1] == t[|t| - 1];
  }

  lemma AdmitsOne(x: Version, op: Op, v: Version, includePrerelease: bool)
    ensures SatisfiesSet(x, [Comparator(op, v)], includePrerelease) <==>
            Relates(x, op, v) && Exempt(x, v, includePrerelease)
  {
    hide Compare;
    Antisymmetric(x, v);
    var comps := [Comparator(op, v)];
    assert comps[0] == Comparator(op, v);
  }

  /** An operator and a version admit what stands in that relation to it. */
  lemma OperatorAdmits(ver: string, op: Op, v: Version, includePrerelease: bool)
    requires WellFormed(v) && Parse(ver).Some?
    ensures var x := Parse(ver).value;
            InRange(ver, Symbol(op) + Text(v), includePrerelease) ==
            Some(Relates(x, op, v) && Exempt(x, v, includePrerelease))
  {
    hide Parse, WellFormed, Text, ParseComparator, SatisfiesSet, Compare, InRange;
    var f := Symbol(op) + Text(v);
    OperatorReads(op, v);
    OneField(f);
    OneSet(ver, f, includePrerelease);
    AdmitsOne(Parse(ver).value, op, v, includePrerelease);
  }

  /** A version on its own admits the versions that compare equal to it. */
  lemma VersionAdmits(ver: string, v: Version, includePrerelease: bool)
    requires WellFormed(v) && Parse(ver).Some?
    ensures var x := Parse(ver).value;
            InRange(ver, Text(v), includePrerelease) == Some(Compare(x, v) == 0 && Exempt(x, v, includePrerelease))
  {
    hide Parse, WellFormed, Text, ParseComparator, SatisfiesSet, Compare, InRange;
    TextIsField(v);
    OperatorReads(Eq, v);
    OneField(Text(v));
    OneSet(ver, Text(v), includePrerelease);
    AdmitsOne(Parse(ver).value, Eq, v, includePrerelease);
  }

  /** Two comparators with a blank between them admit what both do. */
  lemma BothAdmit(ver: string, op: Op, v: Version, op': Op, w: Version)
    requires WellFormed(v) && WellFormed(w) && Parse(ver).Some?
    ensures var x := Parse(ver).value;
            InRange(ver, Symbol(op) + Text(v) + " " + (Symbol(op') + Text(w)), true) ==
            Some(Relates(x, op, v) && Relates(x, op', w))
  {
    hide Parse, WellFormed, Text, ParseComparator, SatisfiesSet, Compare, InRange, Symbol, Relates;
    var f, g := Symbol(op) + Text(v), Symbol(op') + Text(w);
    OperatorReads(op, v);
    OperatorReads(op', w);
    TwoFields(f, g);
    var expr := f + " " + g;
    assert expr[0] == f[0] && expr[|expr| - 1] == g[|g| - 1];
    OneSet(ver, expr, true);
    AdmitsTwo(Parse(ver).value, op, v, op', w);
  }

  lemma AdmitsTwo(x: Version, op: Op, v: Version, op': Op, w: Version)
    ensures SatisfiesSet(x, [Comparator(op, v)] + [Comparator(op', w)], true) <==>
            Relates(x, op, v) && Relates(x, op', w)
  {
    hide Compare;
    Antisymmetric(x, v);
    Antisymmetric(x, w);
    var comps := [Comparator(op, v)] + [Comparator(op', w)];
    assert comps[0] == Comparator(op, v) && comps[1] == Comparator(op', w);
  }

  /** A hyphen between two versions admits them and what lies between. */
  lemma HyphenAdmits(ver: string, lo: Version, hi: Version)
    requires WellFormed(lo) && WellFormed(hi) && Parse(ver).Some?
    ensures var x := Parse(ver).value;
            InRange(ver, Text(lo) + " " + ("-" + " " + Text(hi)), true) ==
              Some(Relates(x, Ge, lo) && Relates(x, Le, hi))
  {
    hide Parse, WellFormed, Text, SatisfiesSet, Compare, InRange, Relates, ParseComparatorSet;
    TextIsField(lo);
    TextIsField(hi);
    HyphenReads(lo, hi);
    var expr := Text(lo) + " " + ("-" + " " + Text(hi));
    assert expr[0] == Text(lo)[0] && expr[|expr| - 1] == Text(hi)[|Text(hi)| - 1];
    OneSet(ver, expr, true);
    assert [Comparator(Ge, lo), Comparator(Le, hi)] == [Comparator(Ge, lo)] + [Comparator(Le, hi)];
    AdmitsTwo(Parse(ver).value, Ge, lo, Le, hi);
  }

  lemma HyphenReads(lo: Version, hi: Version)
    requires WellFormed(lo) && WellFormed(hi)
    ensures ParseComparatorSet(Text(lo) + " " + ("-" + " " + Text(hi))) ==
            Some([Comparator(Ge, lo), Comparator(Le, hi)])
  {
    hide Parse, WellFormed, Text, ParseFields;
    TextIsField(lo);
    TextIsField(hi);
    FieldThenBlank(Text(lo), "-" + " " + Text(hi));
    FieldThenBlank("-", Text(hi));
    WholeField(Text(hi));
    var fields := [Text(lo), "-", Text(hi)];
    assert [Text(lo)] + (["-"] + [Text(hi)]) == fields;
    assert fields[1..][0] == "-";
    assert FieldIndex(fields, "-") == 1;
    var expr := Text(lo) + " " + ("-" + " " + Text(hi));
    assert |expr| > 1;
  }

  // ----- unions -----

  lemma {:induction false} UnionSplits(a: string, b: string)
    requires '|' !in a
    ensures SplitUnion(a + "||" + b) == [a] + SplitUnion(b)
  {
    var s := a + "||" + b;
    if a == "" {
      assert s == "||" + b && s[2..] == b;
    } else {
      UnionSplits(a[1..], b);
      assert s[1..] == a[1..] + "||" + b;
      assert [a[0]] + a[1..] == a;
    }
  }

  /** A union fails when either side does, and admits what either admits. */
  lemma UnionAdmits(ver: string, a: string, b: string, includePrerelease: bool)
    requires '|' !in a && Parse(ver).Some?
    ensures var x, y := InRange(ver, a, includePrerelease), InRange(ver, b, includePrerelease);
            InRange(ver, a + "||" + b, includePrerelease) ==
            if x.None? || y.None? then None else Some(x.value || y.value)
  {
    hide Parse, ParseComparatorSet, TrimFunc, SatisfiesSet, SplitUnion;
    UnionSplits(a, b);
    assert SplitUnion(a) == [a];
    var sets, rest := [a] + SplitUnion(b), SplitUnion(b);
    assert forall i :: 0 < i < |sets| ==> sets[i] == rest[i - 1];
    assert forall i :: 0 <= i < |rest| ==> rest[i] == sets[i + 1];
    assert sets[0] == a && [a][0] == a;
  }

  /** A caret, a tilde or neither in front of a partial version. */
  lemma PrefixReads(raw: string)
    ensures ParseComparator("^" + raw) == CaretRange(raw) && ParseComparator("~" + raw) == TildeRange(raw)
    ensures raw != "" && raw[0] !in "^~<>=" && Parse(TrimASCIISpace(raw)).None? ==>
              ParseComparator(raw) == XRange(TrimASCIISpace(raw))
  {
    hide Parse, TrimFunc, XRange, CaretRange, TildeRange;
    assert ("^" + raw)[1..] == raw && ("~" + raw)[1..] == raw;
    if raw != "" {
      var c := raw[0];
      assert c !in "^~<>=" ==> c != '^' && c != '~' && c != '<' && c != '>' && c != '=' by {
        assert "^~<>="[0] == '^' && "^~<>="[1] == '~' && "^~<>="[2] == '<' && "^~<>="[3] == '>' && "^~<>="[4] == '=';
      }
    }
  }

  /** What parts fields is a tab, a line feed, a vertical tab, a form feed, a carriage return or a space. */
  lemma BlanksAre(c: char)
    ensures IsASCIISpace(c) <==> c in [' ', '\t', '\n', '\U{B}', '\U{C}', '\r']
  {
  }

  /** An identifier is ASCII letters, digits and hyphens, at least one; a number in a prerelease has no leading zero
      and stays below 2^53. */
  lemma IdentifiersExactly(id: string, prerelease: bool)
    ensures ValidIdentifier(id, prerelease) <==>
              && id != ""
              && (forall i :: 0 <= i < |id| ==>
                    || '0' <= id[i] <= '9' || 'a' <= id[i] <= 'z' || 'A' <= id[i] <= 'Z' || id[i] == '-')
              && (prerelease && (forall i :: 0 <= i < |id| ==> '0' <= id[i] <= '9') ==>
                    (id == "0" || id[0] != '0') && Decimal(id) < 9007199254740992)
  {
    hide Decimal;
    if id != "" && AllDigits(id) {
      assert IsDigit(id[0]);
      assert |id| == 1 && id[0] == '0' ==> id == "0";
      ZeroIsSmall();
    }
  }

  lemma ZeroIsSmall()
    ensures Decimal("0") == 0
  {
  }
}
