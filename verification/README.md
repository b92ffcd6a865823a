# Verified model of the assay engine's decision core

The engine decides whether a vulnerability reaches a codebase, and refutes only what it can prove.
This project models the parts where that takes real argument, and proves them:

- **The version axis.** Four version orders (node-semver, NuGet, Maven's ComparableVersion, Go toolchain
  releases) with their ranges; the reading of one affected range and of an advisory's whole set; the
  merging of several entries of a package and of legacy ranges; the toolchain fact with its floors; and the
  refutation built on them. The end result is soundness: a refutation on a floor holds of every toolchain
  that can have built the module.
- **Dependency graphs.** Gradle classpaths folded into one module and its copy modules, with conservation,
  validity and reachability; Maven trees flattened, and the layers their files are listed in; the
  document's identity, validation and normal form.
- **The backward call-graph search**, and which of the paths it finds count.
- **The host allowlist**, a mutable trie with backtracking, against the plain list of patterns.
- **Two shared-state protocols**, each as a class for one call at a time and as a step machine for every
  interleaving, the class's calls proved to take the machine's steps: the advisory manifest's load and
  refresh, and the artifact store's once-only views.
- **The Gradle script lexer** and the splitting of a masked script into statements.

Where the source works in loops over local or heap state, the model has a method with that loop or a class
with those fields, proved equal to a function; the lemmas are about the functions. A Go string is the
sequence of its code points, except in the Gradle lexer, where it is the sequence of its bytes. `int` is
64 bits wide where a parsed number can exceed it.

The modules, bottom up: `GoStrings`; `Prerelease`, `NpmVersion`, `NpmText`, `NpmRanges`, `NugetVersion`,
`NugetInterval`, `MavenVersion`, `MavenOrder`, `MavenQualifiers`, `MavenTransitivity`, `GoToolchain`,
`ToolchainFact`; `AffectedRange`, `LegacyRanges`, `AdvisoryRanges`, `SchemeTops`, `LegacyAgreement`,
`Disqualify`; `CallGraph`, `CallOrder`, `ReachPaths`, `ReachAttribution`; `Schema`, `EdgePaths`, `Normalize`,
`GradleFold`, `GradleProperties`, `GradleConservation`, `Gradle`, `GradleNames`, `GradleModule`, `MavenTree`,
`MavenCompleteness`, `MavenClashes`, `MavenLayers`; `HostMatch`; `CorpusSource`, `CorpusRuns`; `MemStore`,
`ViewRuns`, `StoreRefinement`; `GradleScript`, `GradleTokens`, `MaskProperties`, `GradleStatements`,
`GradleSpaces`.

## Where the code and its documentation differ

- `-0` is read as the number 0 by strconv.Atoi, so two different prerelease identifiers compare equal
  (`Prerelease.EqualIsNotIdentical`), and so do the versions 1.0.0--0 and 1.0.0-0, which both parse
  (`NpmText.EqualVersionsDiffer`). The orders are total preorders.
- The plain npm bound `X` and the range `<X` are documented to disqualify the same versions. They differ
  exactly when the version parses and the bound has a leading blank (`NpmVersion.PlainBoundIsBelowRange`):
  any version written with a blank in front is such a bound (`NpmText.BlankBoundFails`).
- An interval whose lower bound is above its upper one, or that is one excluded point, is refused as empty.
  An accepted interval can be empty all the same: it is exactly when its excluded upper bound is the version
  right above its excluded lower one, or the least version of all, or when it lies above the greatest
  (`NugetInterval.NoVersionIsIn`). Any version and the next one, both excluded, make such an interval
  (`NugetInterval.EmptyIntervalsAreAccepted`): (1.0-alpha,1.0-alpha.0) is one.
- The Maven comparator is no order over all versions: n.0-a < n < n-b < n.0-a for all numbers n with a
  positive last one, when a stands before the release and b behind it (`MavenTransitivity.EveryCycle`; 1.0-rc,
  1 and 1-sp are such). Dotted numbers of any arity, with qualifiers from some set or none, are ordered
  transitively exactly when no two qualifiers of the set stand on different sides of the release
  (`MavenTransitivity.TransitiveExactly`).
- Legacy ranges are said to disagree whenever they fail to pair one-to-one. The greedy pairing decides that
  exactly when, among the legacy ranges of one upper bound, those that state an introduced bound come before
  those that do not (`LegacyRanges.StatedFirstIsExact`).
- Agreeing legacy ranges are left out because they say what the element says. The pairing compares bounds
  alone: neither range types (`LegacyAgreement.AgreementIgnoresTypes`) nor the schemes the two sides are
  judged by (`LegacyAgreement.AgreementIgnoresSchemes`). The element refutes nothing they admit exactly when
  one of its own types orders no versions, or both schemes are one axis and every legacy type orders
  versions (`LegacyAgreement.AgreementIsExact`), provided some version past all its bounds is one the other
  scheme cannot read. Between Maven, npm, NuGet and toolchain versions there always is one
  (`LegacyAgreement.ParsedAreSeparated`).
- A statement of a Gradle script can be an empty span: exactly when everything from its first byte to the
  next end is white space (`GradleStatements.StatementsAreTrimmed`), as a lone no-break space is
  (`GradleStatements.BlankStatement`).
- A mediated Maven tree is checked to hold one version of a coordinate, but the root's own version is not on
  record (`MavenTree.RootVersionIsNotRecorded`). A module has one node of each coordinate when nothing in the
  tree has the root's coordinate at another version; where nothing of the tree is lost, exactly then
  (`MavenTree.OneVersionPerCoordinate`, `MavenCompleteness.OneVersionExactly`).
- The children of a second occurrence of an id in a Maven tree are not read: what is only there is lost
  (`MavenTree.LaterChildrenAreLost`). With no id below itself, nothing is lost exactly when every occurrence of
  an id has only children that its first one has too (`MavenCompleteness.NothingIsLostExactly`).

## Model

| member | source | states |
|---|---|---|
| GoStrings.TextTransitive | pipeline/npm_version.go:286-299 | the text order behind alphanumeric identifiers is transitive, strictness included |
| GoStrings.TextOrder | pipeline/npm_version.go:286-299 | one text is below another exactly when it is a shorter prefix or smaller at the first character that differs |
| GoStrings.AtoiItoa | pipeline/npm_version.go:199-209 | a number written in plain decimal reads back exactly when it fits an int |
| GoStrings.AtoiExactly | pipeline/npm_version.go:199-209 | a text reads as a number exactly when it is that number in plain decimal with zeros in front, or zero behind a minus sign, and fits an int |
| Prerelease.IDAntisymmetric | pipeline/npm_version.go:286-299 | swapping two prerelease identifiers negates their comparison |
| Prerelease.IDTransitive | pipeline/npm_version.go:286-299 | mixed numeric and alphanumeric identifiers are transitive, and strictly so when either step is strict |
| Prerelease.IDEqual | pipeline/npm_version.go:286-299 | two identifiers compare equal exactly when they are the same text or the same number |
| Prerelease.IDOrder | pipeline/npm_version.go:286-299 | numbers compare by value, a number is below every other text, and other texts compare at the first character that differs |
| Prerelease.EqualIsNotIdentical | pipeline/npm_version.go:199-209 | "-0" and "0" are different identifiers that compare equal |
| NpmText.EqualVersionsDiffer | pipeline/npm_version.go:125-209 | 1.0.0--0 and 1.0.0-0 parse to different versions that compare equal |
| Prerelease.Transitive | pipeline/npm_version.go:265-284 | prerelease lists of any lengths, empty ones included, are totally preordered |
| Prerelease.PrecedenceIsFirstDifference | pipeline/npm_version.go:265-284 | one prerelease is below another exactly when, at the first place their identifiers are not of one rank, it ends or has the smaller number, a number against a text, or the text that comes first: section 11 of Semantic Versioning 2.0.0 |
| NpmVersion.CheckIdentifiers | pipeline/npm_version.go:166-197 | the scanning loop accepts exactly the valid dot-separated identifiers, numeric ones without leading zeros and within 2^53-1 |
| NpmText.WrittenReadsBack | pipeline/npm_version.go:125-164 | every version of components within 2^53-1 and valid prerelease identifiers, written with or without a leading v and build metadata, parses back to itself |
| NpmText.ParsedIsWellFormed | pipeline/npm_version.go:125-197 | and nothing else parses: what does is such a version, and parses the same once written out plainly |
| NpmVersion.Antisymmetric | pipeline/npm_version.go:247-263 | swapping two versions negates their comparison |
| NpmVersion.Transitive | pipeline/npm_version.go:247-263 | all parsed versions are totally preordered |
| NpmVersion.OrderIs | pipeline/npm_version.go:247-284 | the first of major, minor and patch that differs decides; then a prerelease is below its release, and two of one release go by that precedence |
| NpmVersion.ReleaseAbovePrereleases | pipeline/npm_version.go:247-284 | a release is strictly above each of its prereleases, and only prereleases of it lie between |
| NpmVersion.SetIsConvex | pipeline/npm_version.go:320-365 | a comparator set with prereleases included admits everything between two versions it admits |
| NpmVersion.IsolationRemovesPrereleases | pipeline/npm_version.go:320-348 | prerelease isolation only takes prereleases away |
| NpmVersion.ReadPartial | pipeline/npm_version.go:570-603 | the loop reads a partial version as its leading numbers up to the first wildcard |
| NpmVersion.ExpansionsAreWindows | pipeline/npm_version.go:450-568 | caret, tilde and x-range expansion is a window [floor, ceiling) with floor below ceiling and all components within 2^53-1, or every version for a bare wildcard |
| NpmVersion.WindowMembers | pipeline/npm_version.go:320-365 | a version is in a window exactly when it is at or above its floor and below its ceiling |
| NpmVersion.CaretAndTildeOnReleases | pipeline/npm_version.go:496-568 | a caret or tilde is accepted exactly when its partial version is and the last component it freezes has a successor; on releases the caret freezes up to the left-most non-zero component given, and the tilde freezes major and a given minor |
| NpmText.XRangeOnReleases | pipeline/npm_version.go:450-494 | a blank or bare wildcard admits every release; any other x-range is accepted exactly when it gives one or two components before its first wildcard, the last with a successor, and admits exactly the releases that have them |
| NpmText.MinorWildcard | pipeline/npm_version.go:450-494 | "1.2.x", for any two numbers, admits exactly the releases with that major and minor |
| NpmVersion.ReadComparatorSet | pipeline/npm_version.go:371-406 | the loop over blank-separated fields, operators apart from their versions included, reads the set it should |
| NpmVersion.MatchRange | pipeline/npm_version.go:97-114 | the loop over the union fails on any malformed set and otherwise admits what some set admits |
| NpmVersion.IsolationNeverAdmitsMore | pipeline/npm_version.go:65-114 | over whole expressions isolation fails on the same inputs, admits no more, and agrees on releases |
| NpmVersion.KeptVersionsAreConvex | pipeline/npm_version.go:29-63 | what lies between two versions a bound without a union keeps is kept |
| NpmVersion.PlainBoundIsBelowRange | pipeline/npm_version.go:29-63 | the bound X and the range <X disqualify alike exactly when the version does not parse or X has no leading blank |
| NpmText.BlankBoundFails | pipeline/npm_version.go:29-63 | a version with a blank in front is a bound that is compared, and with < in front of it a range nothing reads |
| NpmRanges.OperatorAdmits | pipeline/npm_version.go:320-448 | <, <=, >, >= or = with a version behind it admits exactly what stands in that relation to it, prereleases only where all are or beside one of the same release |
| NpmRanges.VersionAdmits | pipeline/npm_version.go:408-448 | a version on its own admits what compares equal to it |
| NpmRanges.BothAdmit | pipeline/npm_version.go:371-448 | two such comparators with a blank between them admit what both do |
| NpmRanges.HyphenAdmits | pipeline/npm_version.go:371-406 | a hyphen between two versions admits them and what lies between |
| NpmRanges.UnionAdmits | pipeline/npm_version.go:97-114 | a union fails when either side does and otherwise admits what either side admits |
| NpmRanges.PrefixReads | pipeline/npm_version.go:408-448 | a caret, a tilde or neither makes a partial version a caret, tilde or x-range |
| NpmRanges.IdentifiersExactly | pipeline/npm_version.go:169-197 | an identifier is ASCII letters, digits and hyphens; a number in a prerelease has no leading zero and stays below 2^53 |
| NpmRanges.BlanksAre | pipeline/npm_version.go:236-245 | white space in a range is a tab, a line feed, a vertical tab, a form feed, a carriage return or a space |
| NugetVersion.ReadCore | pipeline/nuget_version.go:89-135 | the loop over at most four segments reads the core, missing segments as zero |
| NugetVersion.ReadVersion | pipeline/nuget_version.go:89-146 | the parse with its prerelease scan is the one specified, error cases included |
| NugetVersion.Transitive | pipeline/nuget_version.go:148-165 | all parsed versions are totally preordered |
| NugetVersion.OrderIs | pipeline/nuget_version.go:148-165 | the first of the four segments that differs decides; then a prerelease is below its release, and two of one release go by the precedence of their identifiers |
| NugetVersion.ReleaseAbovePrereleases | pipeline/nuget_version.go:148-165 | a release is strictly above its prereleases, and only they lie between |
| NugetVersion.MissingSegmentsAreZero | pipeline/nuget_version.go:89-135 | a core and the core with ".0" added are one version |
| NugetVersion.IntervalIsConvex | pipeline/nuget_version.go:178-193 | interval membership is convex in the version order |
| NugetVersion.BoundsAreMembersWhenInclusive | pipeline/nuget_version.go:178-264 | every accepted interval holds each bound it includes and neither bound it excludes |
| NugetVersion.UpperBoundIsHalfOpenInterval | pipeline/nuget_version.go:40-54 | an upper bound X places outside exactly what the interval (,X) does not hold |
| NugetInterval.TextReadsBack | pipeline/nuget_version.go:89-146 | every version of int segments and valid prerelease identifiers has a text that parses back to it |
| NugetInterval.BuildReads | pipeline/nuget_version.go:89-146 | build metadata is any text of the characters allowed, and plays no part |
| NugetInterval.FloatingProvesNothing | pipeline/nuget_version.go:40-82 | a star anywhere proves nothing; otherwise two versions that parse are compared |
| NugetInterval.IntervalReads | pipeline/nuget_version.go:195-264 | brackets with a comma between two optional versions read as those bounds, refused exactly when both are missing, inverted, or one point not closed |
| NugetInterval.IntervalAdmits | pipeline/nuget_version.go:178-264 | what is accepted admits exactly what is above its lower end and below its upper one, or at an end it includes |
| NugetInterval.SingleVersions | pipeline/nuget_version.go:203-228 | a bare version is the least admitted, one in square brackets the only one, and other brackets are refused |
| NugetInterval.NextIsNext | pipeline/nuget_version.go:148-165 | above a version is exactly at or above the one given as next: "0" behind its prerelease, or the next core's prerelease "0", carried past full segments |
| NugetInterval.NoVersionIsIn | pipeline/nuget_version.go:178-264 | an accepted interval holds no version text exactly when its excluded upper bound is the least version its lower bound admits, or its lower bound admits none |
| NugetInterval.EmptyIntervalsAreAccepted | pipeline/nuget_version.go:178-264 | the interval between a version and the one right above it, both excluded, is accepted and every version is outside it |
| MavenVersion.NormalizeList | pipeline/maven_version.go:180-186 | the in-place trim drops the trailing null items up to the first other item from the end |
| MavenVersion.ParseMaven | pipeline/maven_version.go:79-147 | the index scan over a stack of lists builds the tree that the character-by-character parse specifies |
| MavenVersion.CompareItems | pipeline/maven_version.go:202-290 | the recursive comparison with its scan loop is the specified item order |
| MavenVersion.ReflexiveAndAntisymmetric | pipeline/maven_version.go:30-38 | on all accepted versions the comparison is 0 with itself and negates when swapped |
| MavenVersion.ParseIsRightSpine | pipeline/maven_version.go:79-147 | a parse has at most one sub-list in each list, as its last item, and no list ends in a null item |
| MavenVersion.QualifierTransitive | pipeline/maven_version.go:301-345 | qualifiers are totally preordered |
| MavenOrder.ParsePlain | pipeline/maven_version.go:79-147 | dotted numbers with an optional qualifier and its number parse to the expected tree |
| MavenOrder.DottedNumbersAreLexicographic | pipeline/maven_version.go:202-290 | dotted numbers of any lengths compare as zero-padded sequences of numbers |
| MavenOrder.DottedNumbersTransitive | pipeline/maven_version.go:202-290 | dotted numbers are totally preordered |
| MavenOrder.FixedArityOrder | pipeline/maven_version.go:202-345 | on one arity the order is by the numbers, then the qualifier, then the qualifier's number |
| MavenQualifiers.KnownInOrder | pipeline/maven_version.go:292-345 | on any numbers n, n-alpha < n-beta < n-milestone < n-rc < n-snapshot < n < n-sp |
| MavenQualifiers.UnknownAbove | pipeline/maven_version.go:292-345 | and any other word is above them all |
| MavenQualifiers.UnknownByText | pipeline/maven_version.go:328-345 | other words go by the first character that differs, in lower case |
| MavenQualifiers.AliasesAreEqual | pipeline/maven_version.go:149-178 | a, b, m and cr compare equal to alpha, beta, milestone and rc |
| MavenQualifiers.ReleasesAreEqual | pipeline/maven_version.go:149-186 | ga, final and release, in any case, compare equal to no qualifier at all |
| MavenQualifiers.GrammarExactly | pipeline/maven_version.go:40-55 | a version is compared exactly when it is made of letters, digits, dots, hyphens, underscores and plus signs, at least one |
| MavenQualifiers.AlikeParse | pipeline/maven_version.go:79-147 | case and the choice of separator play no part |
| MavenTransitivity.PlainsTransitive | pipeline/maven_version.go:202-345 | any three such versions are ordered transitively, strictness included, if they have one arity or their qualifiers stand on one side of the release |
| MavenTransitivity.TransitiveExactly | pipeline/maven_version.go:202-345 | such versions of any arities with qualifiers from a set, or none, are all ordered transitively exactly when no two of the set stand on different sides of the release |
| MavenTransitivity.OneSidedTransitive | pipeline/maven_version.go:202-345 | versions of any shape are ordered transitively when, at each depth of nesting, everything but numbers stands on one side of null |
| MavenTransitivity.EveryCycle | pipeline/maven_version.go:202-290 | n.0-a < n < n-b < n.0-a, for all numbers n with a positive last one, a before the release and b behind it |
| MavenTransitivity.Cycle | pipeline/maven_version.go:248-290 | one of them: 1.0-rc < 1 < 1-sp < 1.0-rc |
| GoToolchain.TotalOrder | pipeline/go_toolchain_version.go:126-148 | toolchain versions are totally ordered, equality included |
| GoToolchain.OrderIs | pipeline/go_toolchain_version.go:126-148 | the first of major, minor and patch that differs decides; then a prerelease is below its release and a lower one below a higher |
| GoToolchain.ReleaseReads | pipeline/go_toolchain_version.go:48-89 | three numbers, with go in front or without, read as that release |
| GoToolchain.ShortReleaseReads | pipeline/go_toolchain_version.go:48-89 | and two as the release of patch 0 |
| GoToolchain.PrereleaseReads | pipeline/go_toolchain_version.go:91-124 | behind a release of three numbers a prerelease reads as its rank, or makes the whole unreadable |
| GoToolchain.RanksRead | pipeline/go_toolchain_version.go:91-124 | rc.n has rank n, and 0 one below all of them |
| GoToolchain.RanksExactly | pipeline/go_toolchain_version.go:91-124 | and nothing else has a rank: a candidate number is in plain decimal |
| GoToolchain.OutsideIsMonotone | pipeline/go_toolchain_version.go:35-46 | being at or past an upper bound carries to every later version |
| GoToolchain.ZeroPrereleaseIsLeast | pipeline/go_toolchain_version.go:35-148 | a "-0" bound is below everything of its release line: a version is at or past it exactly when its release is at or past the bound's |
| GoToolchain.FormatRoundTrip | pipeline/toolchain_fact.go:299-301 | a formatted release parses back to itself, as a version and as a bound |
| ToolchainFact.FloorIsSound | pipeline/toolchain_fact.go:271-297 | every toolchain that builds the module is at or above the resolved floor |
| ToolchainFact.BindExactly | pipeline/toolchain_fact.go:142-167 | the directives bind exactly when no go command before 1.21 parses the module file |
| ToolchainFact.BindsOnText | pipeline/toolchain_fact.go:142-167 | a go line of three numbers binds from 1.21.0 on, one of two numbers only beside a toolchain line |
| ToolchainFact.FloorIsTight | pipeline/toolchain_fact.go:271-297 | the floor itself can have built the module, and where nothing binds 1.0 can |
| ToolchainFact.FactIsSound | pipeline/toolchain_fact.go:187-265 | for any build by the go command's rules: a minimum is a true lower bound, an exact fact is not below the floor, and a contradiction comes only beside a surviving minimum and for a claim the build disproves |
| ToolchainFact.ClaimDecides | pipeline/toolchain_fact.go:187-265 | the first source that can be read decides, the subject's own before the trusted observation before the trusted build where directives bind nothing: exactly, or as a contradiction of the floor it is below |
| ToolchainFact.TruthfulSourcesStayExact | pipeline/toolchain_fact.go:187-265 | when the sources tell the truth the fact is exact, true and uncontradicted |
| ToolchainFact.UntrustedInputsAreIgnored | pipeline/toolchain_fact.go:187-265 | without trust the result does not depend on the observed or build-resolved inputs |
| ToolchainFact.GoLineFloorIsFloor | pipeline/toolchain_fact.go:169-185 | the go-line floor exists exactly when a floor does, is sound, and is that floor when no toolchain line raises it |
| AffectedRange.JudgeRanges | pipeline/stages.go:2819-2841 | the early-return loop over the ranges computes the verdict the first range not proved outside decides |
| AffectedRange.OutsideRangesMeaning | pipeline/stages.go:2819-2841 | a set is refuted exactly when it is not empty and every one of its ranges is proved outside |
| AffectedRange.OutsideRangeMeaning | pipeline/affected_bounds.go:14-76 | one range refutes exactly when its type orders versions and the version is below a non-zero introduced bound or at or past a fixed bound |
| AffectedRange.RefutedIsPastOrBelow | pipeline/stages.go:2845-2892 | where the bounds compare, a version is refuted exactly when it compares at or past the fix, or below an introduced bound other than zero |
| AffectedRange.AffectedIsNotRefuted | pipeline/affected_bounds.go:14-76 | a version below the fix and at or above the introduced bound is never refuted, by a range of any type |
| AffectedRange.OtherTypesProveNothing | pipeline/affected_bounds.go:38-47 | a range of a type other than none, SEMVER or ECOSYSTEM proves nothing |
| AffectedRange.WithoutFix | pipeline/affected_bounds.go:49-76 | a range with another bound but no fix places a version by its introduced bound alone |
| AffectedRange.NpmRangeRefutes | pipeline/npm_version.go:47-63 | an npm bound that is a range refutes exactly what it is read on and does not admit |
| AffectedRange.UnknownScheme | pipeline/stages.go:2845-2892 | a scheme that is none of the known ones is compared as a module's at the top, and not below |
| AffectedRange.RefutationIsAntitone | pipeline/stages.go:2819-2841 | adding ranges can only lose a refutation |
| AffectedRange.RefutationIgnoresOrder | pipeline/stages.go:2819-2841 | permuting ranges changes no refutation |
| LegacyRanges.LegacyRangesDisagree | pipeline/affected_bounds.go:172-197 | the loop over the mark array decides as the greedy pairing does |
| LegacyRanges.AgreementIsAPairing | pipeline/affected_bounds.go:172-197 | agreement comes with a one-to-one pairing of all the ranges on their bounds |
| LegacyRanges.DisagreementIsExact | pipeline/affected_bounds.go:172-197 | where ranges that state introduced come first, disagreement is exactly the absence of such a pairing |
| LegacyRanges.StatedFirstIsExact | pipeline/affected_bounds.go:172-197 | that order is the exact condition on the legacy ranges for the verdict to be right whatever the element's are |
| AdvisoryRanges.BuildAffectedRanges | pipeline/stages.go:2404-2427 | one range for each stated one, "0" and "0.0.0" unbounded below, else one for the single bound, else none |
| AdvisoryRanges.StatedRefutes | pipeline/stages.go:2404-2427 | a stated range refutes what is at or past its fix, or below its introduced bound unless that is "", "0" or "0.0.0" |
| AdvisoryRanges.StatedWithoutFix | pipeline/stages.go:2404-2427 | with a last affected version and no fix, only its introduced bound places a version |
| AdvisoryRanges.ValidAffectedRanges | pipeline/stages.go:2977-2992 | a set is used as it is, or withheld exactly when it is empty or holds a boundless range |
| AdvisoryRanges.WithDisagreeingLegacyRanges | pipeline/affected_bounds.go:149-170 | the legacy ranges join the element they describe exactly when the two disagree |
| AdvisoryRanges.RefutationNeedsBoth | pipeline/affected_bounds.go:149-165 | a version is refuted exactly when the element's ranges and, once joined, the legacy ranges all place it outside |
| LegacyAgreement.AgreementRestores | pipeline/affected_bounds.go:172-197 | agreement pairs the ranges so that the lower bounds the legacy ones lost can be restored from the element's |
| LegacyAgreement.AgreementIsExact | pipeline/affected_bounds.go:149-197 | under comparators by which some version past all the element's bounds is unread by the other scheme, agreeing ranges, lost lower bounds restored, admit nothing the element refutes exactly when one of the element's types orders no versions, or both schemes are one axis and every legacy type orders versions |
| LegacyAgreement.ParsedAreSeparated | pipeline/affected_bounds.go:149-197 | between Maven, npm, NuGet and toolchain versions there is such a version for any bounds that can be read, whatever the other comparators |
| LegacyAgreement.AgreementIsExactForParsed | pipeline/affected_bounds.go:149-197 | so between those the condition is exact for any readable bounds |
| LegacyAgreement.SameAxisAndTypesSuffice | pipeline/affected_bounds.go:149-197 | the condition is sufficient for every scheme and bound |
| LegacyAgreement.AgreementAdmitsWhatTheLegacyRangesAdmit | pipeline/affected_bounds.go:149-170 | the same for an element, a record that states introduced, and the two schemes the pipeline passes |
| LegacyAgreement.AgreementIgnoresTypes | pipeline/affected_bounds.go:172-197 | an agreeing legacy range of a type that orders nothing admits what the element's range refutes |
| LegacyAgreement.AgreementIgnoresSchemes | pipeline/stages.go:1434-1443 | of one and the same range a toolchain element refutes go1.22.0 and the module comparator does not |
| Disqualify.EveryVersionOutside | pipeline/stages.go:2796-2806 | the loop holds exactly when the set is complete, not empty, and each version is refuted |
| Disqualify.RefutedMeansProved | pipeline/stages.go:2758-2806 | which is first-party trust and a proof for every version against every range |
| Disqualify.DisqualifyEvery | pipeline/stages.go:2781-2794 | a version refutation holds exactly with first-party trust, no deciding symbol, a known axis, and every version of the selected and of every other present package proved outside its own ranges |
| Disqualify.AffectedPackageNamed | pipeline/stages.go:2918-2954 | the merge of the matching entries is the union of their ranges and of their symbols, each dropped when an entry states none |
| Disqualify.FirstMatching | pipeline/stages.go:2918-2954 | the entry whose names the merge takes is the first listed that matches |
| Disqualify.MergeNeverRefutesMore | pipeline/stages.go:2918-2954 | judging the merge never refutes a version some entry alone does not |
| Disqualify.RangesForToolchainFloor | pipeline/affected_bounds.go:78-102 | a minimum drops every lower bound and nothing else |
| Disqualify.FloorPlacesAllAbove | pipeline/affected_bounds.go:14-102 | a floor outside a range without its lower bound places everything above it outside the range with it |
| Disqualify.ToolchainRefutationIsSound | pipeline/stages.go:2781-2841 | if the resolved fact is refuted on the ranges its strength allows, every toolchain that can have built the module is outside every stated range, lower bounds included |
| CallGraph.ReverseIndex.constructor | plugin/callgraph_view.go:51-86 | the index built from a graph holds its callers, its roots and the last symbol named for each id |
| CallGraph.ReverseIndex.AddEdges | plugin/callgraph_view.go:51-86 | the edge loop records every caller in order and the last symbol of each end |
| CallGraph.SymbolKeepsID | plugin/callgraph_view.go:159-180 | every id the graph mentions has a symbol with that id |
| CallGraph.SymbolIs | plugin/callgraph_view.go:56-73 | an id stands for the last root carrying it, else for the end of the last edge that does, the callee if both do |
| CallOrder.CallersInOrder | plugin/callgraph_view.go:159-169 | the callers of an id come in the order of their first edges into it |
| CallOrder.BeforeIsTotal | plugin/callgraph_view.go:159-169 | of two different chains of one length into a sink, one comes first by the edges it takes, and not the other |
| ReachPaths.FirstPartyReachPaths | pipeline/stages.go:3893-3952 | a path is returned exactly when some ingress or root reaches the sink, and it is one shortest chain of calls without repetition, of the shortest to any entry point the first by the edges it takes back from the sink |
| ReachPaths.FirstIsUnique | pipeline/stages.go:3893-3952 | so the graph, the ingresses and the sink determine the returned path |
| ReachPaths.NewIsLeast | pipeline/stages.go:3893-3952 | a caller met for the first time extends the head's path to the first chain of its length to that caller |
| ReachPaths.HeadIsNearest | pipeline/stages.go:3893-3952 | at every turn the head of the queue is no further from the sink than any chain from an entry point is long |
| ReachPaths.Expand | pipeline/stages.go:3893-3952 | the loop over the callers queues each unvisited one once with the path extended to it |
| ReachPaths.TraceKeepsIDs | pipeline/stages.go:3893-3952 | the trace's ids are the chain's |
| ReachAttribution.OwningIsABoundary | pipeline/stages.go:3675-3689 | a name owns an import path exactly when it is the path or ends at one of its slashes; stdlib owns paths whose first element has no dot |
| ReachAttribution.OwnedLengthIs | pipeline/stages.go:3675-3689 | a name owns with its whole length where the path ends or has a slash behind it; the standard library with the first element, if that has no dot |
| ReachAttribution.PresentLengthIs | pipeline/stages.go:3655-3689 | a package owns with the longer of its names that do |
| ReachAttribution.UnattributedIs | pipeline/stages.go:3655-3673 | the project's own paths are those it is, or stops at a slash of |
| ReachAttribution.OwnerOf | pipeline/stages.go:3655-3673 | the owner is the longest name, the selected package on a tie, then the first listed; nothing owns the project's own paths |
| ReachAttribution.OwnerIsUnique | pipeline/stages.go:3655-3673 | those rules name one owner |
| ReachAttribution.CountedReachPaths | pipeline/stages.go:3620-3645 | the kept paths are the selected package's, then the unattributed, then other packages' not refuted, each in input order |
| ReachAttribution.OnlyRefutedPathsAreDropped | pipeline/stages.go:3620-3645 | a path is dropped only when another present package owns its sink and every version of that package is proved outside all its ranges |
| Schema.NodeIDIsInjective | buildgraph/schema.go:178-187 | colon-free coordinates are recovered from the node id |
| Schema.IDSplits | buildgraph/schema.go:178-193 | taken apart at its colons, a node id gives group, artifact, type, classifier and version in order, and a key the same without the version |
| Schema.KeyIsInjective | buildgraph/schema.go:189-193 | colon-free coordinates but the version are recovered from the key |
| Schema.ColonsAreAmbiguous | buildgraph/schema.go:178-187 | with colons two nodes can share an id |
| Schema.CheckModule | buildgraph/schema.go:264-283 | the loops over one module pass exactly when its nodes are named by their coordinates once each and its root and edges name nodes; otherwise they name the first misnamed or repeated node, or a missing one |
| Schema.Validate | buildgraph/schema.go:241-296 | a document passes exactly when every check holds, modules and classpath copies included; otherwise the answer names the first check that fails |
| Normalize.SortedFormsAgree | buildgraph/schema.go:221-237 | the sorted forms of a module and of a rearrangement of it are equal |
| Normalize.NormalFormIsUnique | buildgraph/schema.go:206-239 | a valid document's modules, nodes and edges have one normal form, whatever order they came in |
| Normalize.NormalFormAscends | buildgraph/schema.go:206-239 | in a normal form modules ascend by path and then id, nodes by id and edges by their ends |
| Normalize.NormalFormExists | buildgraph/schema.go:206-239 | every document has a normal form |
| Normalize.NormalizingKeepsValidity | buildgraph/schema.go:206-239 | a normal form passes Validate's module checks exactly when the document does |
| Normalize.NormalizingAgainChangesNothing | buildgraph/schema.go:206-239 | normalizing twice is normalizing once |
| GradleFold.KeepNodes | buildgraph/gradle.go:412-422 | the loop keeps the first node of each coordinate in precedence order, and the kept map names exactly those |
| GradleFold.JoinEdges | buildgraph/gradle.go:423-439 | the loop moves every edge onto the kept nodes and adds it once, self-loops apart |
| GradleFold.Fold | buildgraph/gradle.go:412-439 | the loops of the fold together give the specified module |
| GradleFold.ClasspathCopies | buildgraph/gradle.go:487-527 | the loop gives the specified copy modules |
| GradleProperties.FirstClasspathWins | buildgraph/gradle.go:412-422 | every coordinate of every classpath has one folded node, from the first classpath that holds it |
| GradleProperties.ScopeIsByHolders | buildgraph/gradle.go:529-540 | a folded node's scope is determined by which classpaths hold its coordinate |
| GradleProperties.FoldedEdgesAreHeld | buildgraph/gradle.go:423-439 | folded edges join folded nodes, without loops or repetition |
| GradleProperties.FoldedEdgesExactly | buildgraph/gradle.go:423-439 | an edge is folded exactly when it joins two different folded nodes whose coordinates some classpath joins |
| GradleProperties.FoldPreservesReachability | buildgraph/gradle.go:412-439 | if every node is reachable from the root in its own classpath, every folded node is reachable through the moved edges |
| GradleConservation.CopiesConserve | buildgraph/gradle.go:487-527 | the copies together hold each wanted id the folded module does not, once |
| GradleConservation.CopiesAre | buildgraph/gradle.go:487-527 | each copy is named by a classpath, holds nodes of it at its scopes, and has exactly its edges between them and the root |
| GradleConservation.NothingLostOrRepeated | buildgraph/gradle.go:412-527 | every id resolved for another coordinate than the project's lands in exactly one of the returned modules, and nothing else does |
| GradleConservation.FoldValidates | buildgraph/gradle.go:412-527 | what is returned passes Validate's module checks and ingest's one-node-per-coordinate check |
| Gradle.ReadClasspathNodes | buildgraph/gradle.go:542-633 | the loops over files and components give the specified nodes and ids, or fail where they should |
| Gradle.TranslateClasspath | buildgraph/gradle.go:461-485 | the translation of one classpath, failures included |
| GradleNames.EveryComponentLands | buildgraph/gradle.go:542-652 | on success each component's ids are exactly the root, a sibling's jar, one for each of its files by the type and classifier its name says, or a pom, and each is a node |
| GradleNames.EveryNodeStands | buildgraph/gradle.go:542-652 | and every node is one of those, with the coordinates of its component and the path and hash of its file |
| GradleNames.FileReads | buildgraph/gradle.go:635-652 | a file's type is its extension, or jar, and its classifier what its stem has behind name-version, and no others |
| GradleNames.NameReadsBack | buildgraph/gradle.go:635-652 | name-version-classifier.ext and name-version.ext read back, whatever the classifier |
| GradleNames.BaseIs | buildgraph/gradle.go:591-594 | a file without a name of its own is named by the last element of its path |
| GradleNames.ResolvesWhen | buildgraph/gradle.go:542-633 | a classpath with nothing unresolved, supported components, files that belong to them and no id at two paths resolves |
| GradleNames.ResolvedMeans | buildgraph/gradle.go:542-633 | one that resolves has nothing unresolved, supported components, files that belong and are hashed, and no file at another path than its node's |
| GradleNames.EdgesTranslateExactly | buildgraph/gradle.go:461-485 | the edges translate exactly when both ends of each are listed |
| GradleNames.FilesAreSorted | buildgraph/gradle.go:588-590 | a module's files are taken in the order of their paths |
| Gradle.TranslationIsGood | buildgraph/gradle.go:461-633 | a translation has unique nodes named by their coordinates and edges between them, colon-free if its inputs are |
| Gradle.TranslationReaches | buildgraph/gradle.go:461-485 | a component reachable from the project's makes every node it became reachable from the root |
| Gradle.ConnectedReaches | buildgraph/gradle.go:461-633 | when the project's component leads to every other, every translated node is reached from the root |
| GradleModule.ReadAliases | buildgraph/gradle.go:349-357 | the aliases kept are the group:artifact names other than the project's own, once each |
| GradleModule.AliasExactly | buildgraph/gradle.go:343-357 | an alias is a stated group other than null and a stated artifact with a colon between them, other than the project's own pair |
| GradleModule.NamesExactly | buildgraph/gradle.go:358-379 | the runtime, the compile and the test classpath are read in this order, then the other runtime configurations in theirs |
| GradleModule.FoldProject | buildgraph/gradle.go:332-441 | the project is refused exactly on a path outside the build, a runtime configuration without classpath, or a stated classpath that does not translate; otherwise the fold of all its classpaths is returned, failed extras listed |
| GradleModule.ProjectFoldsSoundly | buildgraph/gradle.go:332-441 | for colon-free inputs and one version per coordinate in each classpath, everything gradleModule returns is valid and conserves every resolved id |
| GradleModule.ProjectReaches | buildgraph/gradle.go:332-441 | for colon-free inputs and classpaths in which the project's component leads to every other, every node of the project's module is reached from its root; and a node's scope is the one the classpaths holding it give |
| MavenTree.TreeWalk.Down | buildgraph/maven.go:766-788 | the recursive closure gathers what the specified walk does and stops at the first clash |
| MavenTree.FlattenIsSound | buildgraph/maven.go:766-791 | a flattened tree is a valid module whose every node is reached from its root |
| MavenTree.NodesSayTheTree | buildgraph/maven.go:751-791 | every node has the coordinates and the scope of some node of the tree, the first those of the tree itself |
| MavenTree.FlattenIsComplete | buildgraph/maven.go:766-791 | when occurrences of one id have children of the same ids, every id of the tree is kept with an edge to each of its children |
| MavenCompleteness.NothingIsLostExactly | buildgraph/maven.go:766-791 | in a tree with no id below itself every id is kept with an edge to each child of each of its occurrences exactly when no occurrence has a child that the first in preorder has not |
| MavenCompleteness.WalkFollows | buildgraph/maven.go:766-788 | then the walk has seen what precedes it in preorder, and its edges are exactly those of the first occurrences |
| MavenTree.LaterChildrenAreLost | buildgraph/maven.go:766-791 | a child that only a second occurrence of an id has is not in the module |
| MavenTree.OneVersionPerCoordinate | buildgraph/maven.go:764-791 | below the root a coordinate has one version; there is one node per coordinate if nothing in the tree has the root's coordinate at another version, and only then where occurrences of one id have the same child ids |
| MavenClashes.FlattensExactly | buildgraph/maven.go:764-791 | a tree with one version of each coordinate below its root flattens; where occurrences of an id have the same child ids, only such a tree does |
| MavenCompleteness.OneVersionExactly | buildgraph/maven.go:764-791 | and only then wherever nothing of the tree is lost |
| MavenTree.RootVersionIsNotRecorded | buildgraph/maven.go:764-791 | a child with the root's coordinate at another version passes |
| MavenTree.MavenModules | buildgraph/maven.go:736-793 | refuses exactly on two trees of a key, a wrong count, or a module without tree, profiles or a tree that flattens; otherwise returns each module's tree flattened |
| MavenTree.RefusedExactly | buildgraph/maven.go:736-760 | the reactor is refused exactly when two trees have one group and artifact, the counts differ, or a module has no profiles or no tree of its key that flattens |
| MavenTree.EveryTreeHasAModule | buildgraph/maven.go:736-793 | of distinct reactor modules, no tree is left over |
| MavenLayers.Layer | buildgraph/maven.go:880-901 | first fit puts every wanted node in one layer, no layer has a coordinate twice, and the j-th layer lists, in their order, the nodes with exactly j wanted before them of their coordinate |
| MavenLayers.FirstFitIsOptimal | buildgraph/maven.go:880-901 | the number of layers is the largest number of wanted nodes of one coordinate, and no other layering has fewer |
| HostMatch.ValidLabel | hostmatch/matcher.go:225-249 | the loop reports the first fault of a label: empty, over 63 bytes of UTF-8, a byte outside the alphabet, a hyphen at an end |
| HostMatch.LabelPasses | hostmatch/matcher.go:225-249 | a label passes exactly when it is 1 to 63 letters, digits and inner hyphens |
| HostMatch.CheckPattern | hostmatch/matcher.go:111-136 | the checking loop reports the first fault of a pattern |
| HostMatch.AcceptedIsGood | hostmatch/matcher.go:111-136 | a pattern is accepted exactly when every label is valid or a whole wildcard, at most one is, and two labels stand to its right |
| HostMatch.Matcher.InsertName | hostmatch/matcher.go:111-156 | a faulty pattern leaves the trie alone; a good one adds exactly its reversed labels |
| HostMatch.Matcher.Match | hostmatch/matcher.go:54-69 | backtracking from a node succeeds exactly when some inserted word goes on from there as the labels do |
| HostMatch.New | hostmatch/matcher.go:71-109 | fails as a whole on the first bad pattern; otherwise the trie and the ranges are those of all the patterns |
| HostMatch.Matcher.Allows | hostmatch/matcher.go:158-203 | the compiled matcher answers every host as the plain list of patterns does, contract violations included |
| HostMatch.TrieIsTheList | hostmatch/matcher.go:54-156 | words ahead of the root against a reversed name are patterns agreeing label by label up to a wildcard |
| HostMatch.OrderDoesNotMatter | hostmatch/matcher.go:71-109 | the answer depends on the set of patterns alone |
| HostMatch.CaseDoesNotMatter | hostmatch/matcher.go:158-203 | hosts that differ in case alone are answered alike |
| HostMatch.PatternAdmits | hostmatch/matcher.go:71-203 | a good list of labels written with dots, in any case, admits exactly the hosts whose labels agree with it |
| HostMatch.MalformedExactly | hostmatch/matcher.go:158-203 | a host is malformed exactly when it is empty, holds a slash, a percent sign or a bracket, or is neither an address nor valid labels |
| HostMatch.RefusedExactly | hostmatch/matcher.go:71-136 | a pattern is refused exactly when it is blank, a range that does not parse, or a name against the documented rules |
| HostMatch.MorePatternsAdmitMore | hostmatch/matcher.go:158-203 | more patterns admit more and never change what is malformed |
| HostMatch.WildcardIsOneLabel | hostmatch/matcher.go:71-156 | an admitted name has a pattern of its length with its last two labels, differing in at most one |
| CorpusSource.ReadManifest | pipeline/advisory_source.go:841-872 | the index loop accepts and indexes as specified, naming the first repeated identifier |
| CorpusSource.UsableManifests | pipeline/advisory_source.go:841-872 | a manifest is usable exactly when its count is right and no identifier repeats, and the index is then exactly its records |
| CorpusSource.DigestPinsDocuments | pipeline/advisory_source.go:654-687 | a document answers only with the digest the served manifest pins |
| CorpusSource.FindExactly | pipeline/advisory_source.go:630-687 | an identifier answers with its document's facts exactly when a good manifest lists it with a safe path and a digest, and the document can be read and has that digest |
| CorpusSource.SafePaths | pipeline/advisory_source.go:1302-1325 | a path is safe exactly when each of its segments is a name, neither empty nor one or two dots, and it holds no backslash |
| CorpusSource.ArtifactSource.Current | pipeline/advisory_source.go:754-769 | the first load is stored, later calls return it |
| CorpusSource.ArtifactSource.Refresh | pipeline/advisory_source.go:783-819 | an answer without an error means a good manifest is served, a good one is never given up, and fields and answer are exactly those of the steps the runs are made of |
| CorpusSource.RefreshAnswers | pipeline/advisory_source.go:783-819 | a Refresh answers without error exactly when what it then serves is good and the file is there and is the one served, or was reloaded |
| CorpusSource.MissingFileIsReported | pipeline/advisory_source.go:783-819 | a missing file is reported every time, a good manifest stays served, and the report goes when the file is back |
| CorpusSource.BadReloadIsReported | pipeline/advisory_source.go:783-819 | a changed file that is no good leaves the good manifest served and is reported again, unread, while it stays |
| CorpusSource.ArtifactSource.LookupEach | pipeline/advisory_source.go:706-720 | every id is answered from one served load |
| CorpusRuns.StepKeepsInv | pipeline/advisory_source.go:754-819 | every step keeps: the served load is what one stat and one later read of the file gave, and a kept failure is of a bad version |
| CorpusRuns.ServedNeverGoesBack | pipeline/advisory_source.go:754-819 | in every run a good manifest stays good, and served content never goes back to an older version |
| CorpusRuns.RefreshServesTheFile | pipeline/advisory_source.go:783-819 | in every run a Refresh of a file that holds still answers without error exactly when the file is usable, and then leaves exactly its index |
| CorpusRuns.FailedReloadIsNotRetried | pipeline/advisory_source.go:783-819 | a failed reload behind a good manifest is reported again and not read again until the file changes |
| CorpusRuns.ReadBeforeStatMissesRewrites | pipeline/advisory_source.go:771-781 | the opposite order of stat and read would miss a rewrite for good |
| MemStore.MemStore.Put | artifact/store.go:51-79 | the caller's artifact is stamped, a copy with its own payload replaces that id and nothing else, and the views of the id go |
| MemStore.MemStore.Get | artifact/store.go:81-95 | a fresh copy with a payload of its own, or nothing |
| MemStore.MemStore.View | artifact/store.go:149-176 | some matching artifact's payload decoded, through a view that is made once and kept |
| MemStore.MemStore.Seed | artifact/store.go:189-207 | a view is set exactly when the artifact exists and has none under the key |
| MemStore.WriteAfterPut | artifact/store.go:51-79 | writing into a stored artifact's payload does not reach the store |
| MemStore.WriteAfterGet | artifact/store.go:81-95 | nor does writing into a payload Get returned |
| ViewRuns.StepKeepsInv | artifact/store.go:51-207 | every interleaved step keeps: views belong to current artifacts, a finished view holds its version's decode, and no version and key has two views |
| ViewRuns.DecodedAtMostOnce | artifact/store.go:123-207 | in every run the decode of a stored version under a key begins at most once and never when seeded, and no view in the map is of a replaced artifact |
| ViewRuns.ViewReturnsWhatItPicked | artifact/store.go:149-176 | in every run a View returns the decode of the payload its artifact held when it was picked |
| ViewRuns.NeverStuck | artifact/store.go:149-176 | a View that has picked can return, decode, or wait for a decode that can finish |
| StoreRefinement.NewStore | artifact/store.go:46-49 | a new store is mirrored by the state every run begins in |
| StoreRefinement.PutStore | artifact/store.go:51-79 | a Put on the class is one Put step of the machine |
| StoreRefinement.SeedStore | artifact/store.go:189-207 | a Seed is one Seed step, or a refused one |
| StoreRefinement.ViewStore | artifact/store.go:149-176 | a View is a miss, or one caller's pick, decode when none has run, and return of the decode of the picked payload |
| StoreRefinement.ViewSteps | artifact/store.go:149-176 | those steps exist from every state the store mirrors, and end in the state it then mirrors |
| GradleScript.MaskGradle | pipeline/root_package.go:946-1012 | the byte scanner over the buffer and the depth array computes the specified mask, or fails where it does |
| GradleScript.ScanClosing | pipeline/root_package.go:981-993 | the loop over the bytes finds what the recursive search does |
| GradleTokens.ClosingExactly | pipeline/root_package.go:976-993 | a string closes at the first quote with an even number of backslashes directly before it, and does not when there is none |
| GradleTokens.WidthExactly | pipeline/root_package.go:976-981 | three quotes delimit a string exactly when it begins with three of the same |
| GradleTokens.CutExactly | pipeline/root_package.go:959-1010 | the tokens cut off are exactly comments to the end of their line or their first end, such strings, braces and single bytes |
| MaskProperties.MaskBlanksBodies | pipeline/root_package.go:946-1012 | length and newlines are kept, and bytes change only inside comments and string contents, to blanks |
| MaskProperties.DepthIsBraceCount | pipeline/root_package.go:946-1012 | a byte's depth is the brace count of the masked text before it, but zero behind a comment's first byte; no prefix is negative and the whole is balanced |
| MaskProperties.MaskAgain | pipeline/root_package.go:946-1012 | masking a masked script gives it back |
| MaskProperties.MaskTwice | pipeline/root_package.go:946-1012 | the second masking finds no comment and gives every byte its brace count |
| GradleStatements.SplitRaw | pipeline/root_package.go:859-873 | the loop cuts a range into pieces that end at the level's ends and together hold every byte that is neither blank nor an end |
| GradleStatements.Statements | pipeline/root_package.go:855-879 | the statements are those pieces with their ends trimmed |
| GradleStatements.StatementsAreTrimmed | pipeline/root_package.go:855-879 | statements are ordered and apart, begin with a byte that is not blank, hold no end of the level and end behind no white space; one is empty exactly when the text from its first byte to the next end is all white space |
| GradleSpaces.TrimsTheText | pipeline/root_package.go:855-879 | trimming the UTF-8 bytes of a text takes off exactly its trailing Unicode white space |
| GradleStatements.EveryByteIsSomewhere | pipeline/root_package.go:855-879 | every other byte is in a statement, or in a white space rune outside ASCII trimmed off the end of one |
| GradleStatements.StatementsAreUnique | pipeline/root_package.go:855-879 | the text and the depths determine the statements |
| GradleStatements.BlankStatement | pipeline/root_package.go:855-879 | a line of a lone no-break space is an empty statement |

## Left out

- IP addresses and CIDR ranges in the allowlist: Go's net package is a parameter of the matcher, and only how its answers are combined is modelled.
- PEP 440 and module semver ordering: taken as two comparators, since their code is in other packages.
- Unicode lower-casing beyond the characters that become ASCII letters.
- Transitivity of the Maven order over all accepted versions is false of the code (`MavenTransitivity.EveryCycle`). The exact condition is proved for dotted numbers with an optional qualifier; for versions of other shapes one side at each depth is proved sufficient.
- ToolchainFact.FactIsSound: a build's toolchain is taken to be a release at or above 1.0, as every Go release is; a go line below 1.0 would bind without meaning anything.
- Disqualify.ToolchainRefutationIsSound: an exact fact is taken to be true of the build, since it comes from observation.
- LegacyAgreement.AgreementIsExact: the condition is always sufficient; that it is necessary is proved for comparators under which some version past all the element's bounds is not read by the other scheme. Of the PEP 440 and module comparators, which are not part of this model, that is assumed. A missing introduced bound is documented as lost on projection, so it is judged restored from the range it is paired with.
- LegacyAgreement.AgreementAdmitsWhatTheLegacyRangesAdmit: the same.
- GradleModule.ProjectFoldsSoundly: needs colon-free coordinates and distinct configuration names, which the build tool guarantees and the code does not check.
- MavenCompleteness.NothingIsLostExactly: trees in which an id occurs below itself are not covered; `MavenTree.FlattenIsComplete` covers those whose occurrences agree.
- MavenTree.OneVersionPerCoordinate: the condition on the tree is necessary only where nothing is lost, since what is not read can hold anything.
- GradleModule.ProjectReaches: a scope by holders is stated for builds in which no other runtime configuration is itself named compileClasspath, which would list that classpath twice.
- MavenVersion.ParseMaven: the source's stack of pointers to nested lists is a stack of values, assembled at the end; aliasing between a list and its parent is not modelled.
- Hashing of files and payloads, reading of files and running of build tools: their results are inputs. The order sort.Slice leaves files of one name in is not modelled, and extra configurations are taken sorted by name as their map is walked.
- CorpusRuns.RefreshServesTheFile: one identity per rewrite and no transient read errors are assumed; the documents' schema validation is a parameter of lookups, and sorting of known identifiers is left out.
- MemStore.MemStore.View: decodes are taken to be one function per key, and a seeded value to equal its result, as the documentation demands of callers; the map's iteration order is any choice.
- Query and List of the store: the same copying over a scan of the map. The file-backed store: input and output.
- Node and module fields the graph code only carries: optional flags, active profiles, commands, sidecars. The lists Normalize leaves alone, and its sorted lists of plain strings.
- Which statements of a Gradle script are allowlisted: patterns of the regexp package over the spans modelled here.
- Plugin calls, taint, harness, telemetry, acquisition and the advisory tables: plumbing around the decisions modelled here.
