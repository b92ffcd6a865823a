/** The subject's Go toolchain as one resolved fact (pipeline/toolchain_fact.go). */
module ToolchainFact {
  import opened GoStrings
  import opened GoToolchain

  datatype Bound = Exact | Minimum | NoBound

  datatype Source = SubjectDeclared | CIObserved | BuildResolved | GoDirective | Unresolved

  datatype Contradiction = Contradiction(claimed: string, claimedSource: Source, floor: string, floorSource: Source)

  datatype Fact = Fact(version: string, bound: Bound, source: Source, contradiction: Option<Contradiction>)

  datatype Inputs = Inputs(
    subjectDeclared: string,
    ciObserved: string,
    trustCIObserved: bool,
    buildResolved: string,
    toolchainDirective: string,
    goDirective: string,
    bazelWorkspace: bool)

  const FIRST_TOOLCHAIN_LINE := Version(1, 21, 0, None)
  const UNRESOLVED := Fact("", NoBound, Unresolved, None)

  predicate IsThreePart(goDirective: string) {
    CountDots(TrimSpace(goDirective)) == 2
  }

  /** directivesBindToolchain: a toolchain line, or a three-part go line from 1.21.0 on. */
  predicate DirectivesBind(in_: Inputs) {
    || in_.toolchainDirective != ""
    || (IsThreePart(in_.goDirective)
        && ParseVersion(TrimSpace(in_.goDirective)).Some?
        && var v := ParseVersion(TrimSpace(in_.goDirective)).value; v.major > 1 || v.minor >= 21)
  }

  /** The floor's version, or None when no directive is one. */
  function Floor(in_: Inputs): Option<Version> {
    if in_.bazelWorkspace || !DirectivesBind(in_) then None
    else match ParseVersion(in_.goDirective)
      case None => None
      case Some(v) =>
        if in_.toolchainDirective != "" && Compare(v, FIRST_TOOLCHAIN_LINE) < 0 then Some(FIRST_TOOLCHAIN_LINE)
        else Some(v)
  }

  /** resolveToolchainFloor's fact. */
  function FloorFact(in_: Inputs): Fact {
    match Floor(in_)
    case None => UNRESOLVED
    case Some(v) => Fact(Format(v), Minimum, GoDirective, None)
  }

  /** goLineFloor: the go line itself when it binds, "" otherwise. */
  function GoLineFloor(in_: Inputs): string {
    if !DirectivesBind(in_) then ""
    else match ParseVersion(in_.goDirective) case Some(v) => Format(v) case None => ""
  }

  /** The exact sources that take part, in precedence order. */
  function ExactSources(in_: Inputs): seq<(string, Source)> {
    [(in_.subjectDeclared, SubjectDeclared)]
    + (if in_.trustCIObserved then [(in_.ciObserved, CIObserved)] else [])
    + (if in_.trustCIObserved && !DirectivesBind(in_) && !in_.bazelWorkspace then [(in_.buildResolved, BuildResolved)]
      else [])
  }

  /** The loop over the exact sources: the first that parses decides. */
  function Resolve(sources: seq<(string, Source)>, floor: Option<Version>, floorFact: Fact): Fact {
    if sources == [] then floorFact
    else match ParseVersion(sources[0].0)
      case None => Resolve(sources[1..], floor, floorFact)
      case Some(claim) =>
        if floor.Some? && Compare(claim, floor.value) < 0 then
          floorFact.(contradiction := Some(Contradiction(Format(claim), sources[0].1, floorFact.version,
                                                         floorFact.source)))
        else Fact(Format(claim), Exact, sources[0].1, None)
  }

  function ResolveFact(in_: Inputs): Fact {
    Resolve(ExactSources(in_), Floor(in_), FloorFact(in_))
  }

  // ----- what a build may be -----

  /**
   What the go command asks of a build by toolchain t. No Go release is below 1.0. Without a Bazel
   workspace the module file must parse, which until 1.21 it does only with neither a toolchain line nor
   a three-part go line of 1.21.0 or later; since then its go line may be no later than t.
   */
  predicate Builds(in_: Inputs, t: Version) {
    && t.rank == None && t.major >= 1
    && (!in_.bazelWorkspace ==> if Compare(t, FIRST_TOOLCHAIN_LINE) < 0 then ParsesBefore121(in_)
         else AcceptsGoLine(in_, t))
  }

  predicate ParsesBefore121(in_: Inputs) {
    && in_.toolchainDirective == ""
    && (IsThreePart(in_.goDirective) && ParseVersion(in_.goDirective).Some? ==>
          Compare(ParseVersion(in_.goDirective).value, FIRST_TOOLCHAIN_LINE) < 0)
  }

  predicate AcceptsGoLine(in_: Inputs, t: Version) {
    ParseVersion(in_.goDirective).Some? ==> Compare(ParseVersion(in_.goDirective).value, t) <= 0
  }

  lemma TrimmedTwice(s: string)
    ensures TrimSpace(TrimSpace(s)) == TrimSpace(s)
  {
    var left := TrimLeft(s, IsSpace);
    var t := TrimRight(left, IsSpace);
    if t != [] { assert t[0] == left[0]; }
  }

  /** Every toolchain that builds the module is at or above the floor. */
  lemma FloorIsSound(in_: Inputs, t: Version)
    requires Builds(in_, t) && Floor(in_).Some?
    ensures Compare(Floor(in_).value, t) <= 0
  {
    hide ParseTrimmed, TrimFunc, CountDots;
    TrimmedTwice(in_.goDirective);
    ParsedFits(in_.goDirective);
  }

  lemma FloorFits(in_: Inputs)
    requires Floor(in_).Some?
    ensures ParseVersion(Format(Floor(in_).value)) == Some(Floor(in_).value)
    ensures ParseBound(Format(Floor(in_).value)) == Some(Floor(in_).value)
  {
    hide ParseVersion, ParseBound, Format, DirectivesBind;
    ParsedFits(in_.goDirective);
    FormatRoundTrip(Floor(in_).value);
  }

  /** What the loop over exact sources returns, by cases. */
  lemma {:induction false} ResolveCases(sources: seq<(string, Source)>, floor: Option<Version>, floorFact: Fact)
    returns (i: nat)
    ensures i <= |sources|
    ensures forall k :: 0 <= k < i ==> ParseVersion(sources[k].0).None?
    ensures i == |sources| ==> Resolve(sources, floor, floorFact) == floorFact
    ensures i < |sources| ==>
              ParseVersion(sources[i].0).Some? &&
              var claim := ParseVersion(sources[i].0).value;
              Resolve(sources, floor, floorFact) ==
              if floor.Some? && Compare(claim, floor.value) < 0
              then floorFact.(contradiction := Some(Contradiction(Format(claim), sources[i].1, floorFact.version,
                                                                  floorFact.source)))
              else Fact(Format(claim), Exact, sources[i].1, None)
  {
    hide ParseVersion, Compare, Format;
    if sources == [] || ParseVersion(sources[0].0).Some? {
      i := 0;
    } else {
      var j := ResolveCases(sources[1..], floor, floorFact);
      i := j + 1;
      assert forall k :: 1 <= k < i ==> sources[k] == sources[1..][k - 1];
      if j < |sources| - 1 { assert sources[i] == sources[1..][j]; }
    }
  }

  /** A claim that is not below the floor stands; one that is, no build of the module can have made. */
  lemma ClaimAgainstFloor(in_: Inputs, t: Version, raw: string)
    requires Builds(in_, t) && Floor(in_).Some? && ParseVersion(raw).Some?
    ensures var claim := ParseVersion(raw).value;
            && ParseVersion(Format(claim)) == Some(claim)
            && (Compare(claim, Floor(in_).value) < 0 ==> Compare(claim, t) < 0)
            && (Compare(claim, Floor(in_).value) >= 0 ==> Compare(Floor(in_).value, claim) <= 0)
  {
    hide ParseVersion, ParseBound, Compare, Format, DirectivesBind, Builds, Floor;
    var claim, floor := ParseVersion(raw).value, Floor(in_).value;
    ParsedFits(raw);
    FormatRoundTrip(claim);
    FloorIsSound(in_, t);
    TotalOrder(claim, floor, t);
    TotalOrder(t, claim, floor);
    TotalOrder(floor, t, claim);
  }

  /** The fact a build by t may be given: a minimum at or below t, an exact version not below the
      floor, and a contradiction only beside that floor and for a claim t disproves. */
  predicate Sound(in_: Inputs, t: Version, fact: Fact) {
    && (fact.bound == Minimum ==>
          ParseBound(fact.version).Some? && Compare(ParseBound(fact.version).value, t) <= 0)
    && (fact.bound == Exact && Floor(in_).Some? ==>
          ParseVersion(fact.version).Some? && Compare(Floor(in_).value, ParseVersion(fact.version).value) <= 0)
    && (fact.contradiction.Some? ==>
          && fact.bound == Minimum && Floor(in_).Some?
          && fact.version == fact.contradiction.value.floor == Format(Floor(in_).value)
          && ParseVersion(fact.contradiction.value.claimed).Some?
          && Compare(ParseVersion(fact.contradiction.value.claimed).value, t) < 0)
    && (fact.bound == NoBound ==> fact == UNRESOLVED)
  }

  lemma FactIsSound(in_: Inputs, t: Version)
    requires Builds(in_, t)
    ensures Sound(in_, t, ResolveFact(in_))
  {
    hide ParseVersion, ParseBound, Compare, Format, Builds, Floor, ExactSources;
    var sources := ExactSources(in_);
    var i := ResolveCases(sources, Floor(in_), FloorFact(in_));
    if Floor(in_).Some? {
      FloorIsSound(in_, t);
      FloorFits(in_);
      if i < |sources| {
        ClaimAgainstFloor(in_, t, sources[i].0);
      }
    }
  }

  /** When every source that takes part tells the truth about a build, the first that parses is kept
      as exact, and nothing is called a contradiction. */
  lemma TruthfulSourcesStayExact(in_: Inputs, t: Version)
    requires Builds(in_, t)
    requires forall k :: 0 <= k < |ExactSources(in_)| && ParseVersion(ExactSources(in_)[k].0).Some? ==>
                           ParseVersion(ExactSources(in_)[k].0).value == t
    requires exists k :: 0 <= k < |ExactSources(in_)| && ParseVersion(ExactSources(in_)[k].0).Some?
    ensures ResolveFact(in_).bound == Exact && ResolveFact(in_).version == Format(t)
    ensures ResolveFact(in_).contradiction.None?
  {
    hide ParseVersion, Compare, Format, DirectivesBind, Builds;
    var sources, floor := ExactSources(in_), Floor(in_);
    var i := ResolveCases(sources, floor, FloorFact(in_));
    if floor.Some? {
      FloorIsSound(in_, t);
      TotalOrder(floor.value, t, t);
    }
  }

  /** Untrusted, the observed and build-resolved inputs take no part at all. */
  lemma UntrustedInputsAreIgnored(in_: Inputs, observed: string, resolved: string)
    requires !in_.trustCIObserved
    ensures ResolveFact(in_) == ResolveFact(in_.(ciObserved := observed, buildResolved := resolved))
  {
    hide ParseVersion, Compare, Format;
  }

  /** goLineFloor reports the same floor, but for the raise a toolchain line gives. */
  lemma GoLineFloorIsFloor(in_: Inputs, t: Version)
    requires Builds(in_, t) && !in_.bazelWorkspace
    ensures GoLineFloor(in_) != "" <==> Floor(in_).Some?
    ensures GoLineFloor(in_) != "" ==>
              ParseVersion(GoLineFloor(in_)).Some? && Compare(ParseVersion(GoLineFloor(in_)).value, t) <= 0
    ensures GoLineFloor(in_) != "" && in_.toolchainDirective == "" ==> GoLineFloor(in_) == FloorFact(in_).version
  {
    hide ParseVersion, ParseBound, Compare, DirectivesBind, Itoa, Builds;
    if Floor(in_).Some? {
      var v := ParseVersion(in_.goDirective).value;
      ParsedFits(in_.goDirective);
      FormatRoundTrip(v);
      FloorIsSound(in_, t);
      TotalOrder(v, FIRST_TOOLCHAIN_LINE, t);
    }
  }

  // ----- which source speaks -----

  /** The claim that decides: the subject's own, else the trusted observation, else, for a module whose
      directives bind nothing, the trusted toolchain its build resolves. The first that can be read. */
  ghost function Claim(in_: Inputs): Option<(Version, Source)> {
    if ParseVersion(in_.subjectDeclared).Some? then
      Some((ParseVersion(in_.subjectDeclared).value, SubjectDeclared))
    else if !in_.trustCIObserved then None
    else if ParseVersion(in_.ciObserved).Some? then Some((ParseVersion(in_.ciObserved).value, CIObserved))
    else if in_.bazelWorkspace || DirectivesBind(in_) then None
    else match ParseVersion(in_.buildResolved) case Some(v) => Some((v, BuildResolved)) case None => None
  }

  /** The fact is that claim; or the floor alone where there is none, and the floor with the contradiction where it
      is below the floor. */
  lemma ClaimDecides(in_: Inputs)
    ensures var claim, floor, fact := Claim(in_), Floor(in_), ResolveFact(in_);
            && (claim.None? ==> fact == FloorFact(in_))
            && (claim.Some? && floor.Some? && Compare(claim.value.0, floor.value) < 0 ==>
                  fact == FloorFact(in_).(contradiction := Some(Contradiction(Format(claim.value.0), claim.value.1,
                                                                              Format(floor.value), GoDirective))))
            && (claim.Some? && !(floor.Some? && Compare(claim.value.0, floor.value) < 0) ==>
                  fact == Fact(Format(claim.value.0), Exact, claim.value.1, None))
  {
    hide ParseVersion, DirectivesBind, Compare, Format, Floor, Resolve;
    var sources, floor, floorFact := ExactSources(in_), Floor(in_), FloorFact(in_);
    var observed := if in_.trustCIObserved then [(in_.ciObserved, CIObserved)] else [];
    var resolved := if in_.trustCIObserved && !DirectivesBind(in_) && !in_.bazelWorkspace
                    then [(in_.buildResolved, BuildResolved)] else [];
    assert sources == [(in_.subjectDeclared, SubjectDeclared)] + (observed + resolved);
    assert sources[1..] == observed + resolved;
    assert observed != [] ==> (observed + resolved)[1..] == resolved;
    assert observed == [] ==> observed + resolved == [];
    ResolveNext(sources, floor, floorFact);
    ResolveNext(observed + resolved, floor, floorFact);
    ResolveNext(resolved, floor, floorFact);
    ResolveNext([], floor, floorFact);
    assert resolved != [] ==> resolved[1..] == [];
  }

  lemma ResolveNext(sources: seq<(string, Source)>, floor: Option<Version>, floorFact: Fact)
    ensures Resolve(sources, floor, floorFact) ==
            if sources == [] then floorFact
            else match ParseVersion(sources[0].0)
              case None => Resolve(sources[1..], floor, floorFact)
              case Some(claim) =>
                if floor.Some? && Compare(claim, floor.value) < 0 then
                  floorFact.(contradiction := Some(Contradiction(Format(claim), sources[0].1, floorFact.version,
                                                                 floorFact.source)))
                else Fact(Format(claim), Exact, sources[0].1, None)
  {
    hide ParseVersion, Compare, Format;
  }

  // ----- the floor is no lower than it could be -----

  /** The directives bind exactly when no go command before 1.21 parses the module file. */
  lemma BindExactly(in_: Inputs)
    requires ParseVersion(in_.goDirective).Some? ==> ParseVersion(in_.goDirective).value.major >= 1
    ensures DirectivesBind(in_) <==> !ParsesBefore121(in_)
  {
    hide ParseVersion, IsThreePart;
    TrimmedParses(in_.goDirective);
    if ParseVersion(in_.goDirective).Some? { ParsedFits(in_.goDirective); }
  }

  lemma TrimmedParses(s: string)
    ensures ParseVersion(TrimSpace(s)) == ParseVersion(s)
  {
    hide ParseTrimmed;
    var t := TrimSpace(s);
    var left := TrimLeft(s, IsSpace);
    if t != [] { assert t[0] == left[0]; }
    TrimNothing(t, IsSpace);
  }

  /** The floor itself can have built the module, so no higher one is sound; and where directives bind nothing, so
      can 1.0. */
  lemma FloorIsTight(in_: Inputs)
    requires ParseVersion(in_.goDirective).Some? ==> ParseVersion(in_.goDirective).value.major >= 1
    ensures Floor(in_).Some? ==> Builds(in_, Floor(in_).value)
    ensures in_.bazelWorkspace || !DirectivesBind(in_) ==> Builds(in_, Version(1, 0, 0, None))
    ensures Floor(in_).None? <==>
            in_.bazelWorkspace || !DirectivesBind(in_) || ParseVersion(in_.goDirective).None?
  {
    hide ParseVersion, DirectivesBind, IsThreePart, ParsesBefore121, Compare;
    BindExactly(in_);
    if ParseVersion(in_.goDirective).Some? {
      var v := ParseVersion(in_.goDirective).value;
      ParsedFits(in_.goDirective);
      TotalOrder(v, v, v);
      TotalOrder(FIRST_TOOLCHAIN_LINE, v, v);
      BoundGoLine(in_);
    }
    Early();
  }

  lemma Early()
    ensures Compare(Version(1, 0, 0, None), FIRST_TOOLCHAIN_LINE) < 0
    ensures Compare(FIRST_TOOLCHAIN_LINE, FIRST_TOOLCHAIN_LINE) == 0
  {
  }

  /** A go line that binds on its own is 1.21.0 or later. */
  lemma BoundGoLine(in_: Inputs)
    requires ParseVersion(in_.goDirective).Some?
    ensures !ParsesBefore121(in_) && in_.toolchainDirective == "" ==>
              Compare(ParseVersion(in_.goDirective).value, FIRST_TOOLCHAIN_LINE) >= 0
  {
    hide ParseVersion, IsThreePart, Compare;
  }

  // ----- on texts -----

  lemma DottedIsThreePart(nums: seq<string>)
    requires nums != [] && forall i :: 0 <= i < |nums| ==> nums[i] != "" && AllDigits(nums[i])
    ensures IsThreePart(Join(nums, '.')) <==> |nums| == 3
  {
    hide Split, TrimSpace, Join;
    SplitsBack(nums);
    JoinEnds(nums);
    GoInFront(Join(nums, '.'), Join(nums, '.'));
  }

  /** A module file binds with any toolchain line, and without one when its go line has three numbers and is 1.21.0
      or later; two numbers never do. */
  lemma BindsOnText(in_: Inputs, major: nat, minor: nat, patch: nat)
    requires 1 <= major <= MAX_INT64 && minor <= MAX_INT64 && patch <= MAX_INT64
    ensures in_.goDirective == Join([Itoa(major), Itoa(minor), Itoa(patch)], '.') ==>
              (DirectivesBind(in_) <==> in_.toolchainDirective != "" || major > 1 || minor >= 21)
    ensures in_.goDirective == Join([Itoa(major), Itoa(minor)], '.') ==>
              (DirectivesBind(in_) <==> in_.toolchainDirective != "")
  {
    hide Itoa, Join, ParseVersion, IsThreePart;
    var three, two := [Itoa(major), Itoa(minor), Itoa(patch)], [Itoa(major), Itoa(minor)];
    DottedIsThreePart(three);
    DottedIsThreePart(two);
    ReleaseReads(Version(major, minor, patch, None), Join(three, '.'));
    TrimmedParses(in_.goDirective);
  }
}
