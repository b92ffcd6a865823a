/** Which reach paths count toward the selected package (countedReachPaths, pipeline/stages.go). */
module ReachAttribution {
  import opened GoStrings
  import opened AffectedRange
  import opened Disqualify

  const STDLIB := "stdlib"

  /** Another affected package present in the build, with its versions and ranges. */
  datatype Present = Present(module_: string, coordinate: string, judged: Judged)

  datatype Attribution = Attribution(selected: seq<string>, others: seq<Present>, project: string, trust: Trust)

  /** A reach path and the import path of its sink. */
  datatype Path = Path(trace: seq<string>, sinkPackage: string)

  function FirstElement(pkg: string): string {
    if IndexOf(pkg, '/') < 0 then pkg else pkg[..IndexOf(pkg, '/')]
  }

  function OwnedLength(name: string, pkg: string): nat {
    if name == "" then 0
    else if name == STDLIB then if '.' !in FirstElement(pkg) then |FirstElement(pkg)| else 0
    else if pkg == name || name + "/" <= pkg then |name|
    else 0
  }

  function PresentLength(p: Present, pkg: string): nat {
    var a, b := OwnedLength(p.module_, pkg), OwnedLength(p.coordinate, pkg);
    if a > b then a else b
  }

  /** A name owns an import path exactly when it is the path or stops at one of its slashes; the standard
      library owns the paths whose first element has no dot. */
  lemma OwningIsABoundary(name: string, pkg: string)
    requires pkg != "" && pkg[0] != '/'
    ensures OwnedLength(name, pkg) > 0 <==>
              name != "" && if name == STDLIB then '.' !in FirstElement(pkg)
                            else name <= pkg && (|pkg| == |name| || pkg[|name|] == '/')
    ensures OwnedLength(name, pkg) <= |pkg|
  {
    if name <= pkg && |pkg| > |name| {
      assert name + "/" <= pkg <==> pkg[|name|] == '/' by {
        assert pkg[..|name| + 1] == name + [pkg[|name|]];
      }
    }
  }

  datatype Owner = NoOwner | Selected | Other(package: Present)

  predicate Unattributed(a: Attribution, pkg: string) {
    pkg == "" || (a.project != "" && (pkg == a.project || a.project + "/" <= pkg))
  }

  /** The owner of an import path: the longest name, the selected package on a tie, then the first listed. */
  ghost predicate IsOwner(a: Attribution, pkg: string, o: Owner) {
    if Unattributed(a, pkg) then o == NoOwner
    else match o
      case NoOwner =>
        && (forall n :: n in a.selected ==> OwnedLength(n, pkg) == 0)
        && (forall p :: p in a.others ==> PresentLength(p, pkg) == 0)
      case Selected =>
        exists n :: n in a.selected && OwnedLength(n, pkg) > 0
                    && (forall p :: p in a.others ==> PresentLength(p, pkg) <= OwnedLength(n, pkg))
      case Other(q) =>
        exists i :: 0 <= i < |a.others| && a.others[i] == q && IsOtherOwner(a, pkg, i)
  }

  ghost predicate IsOtherOwner(a: Attribution, pkg: string, i: nat)
    requires i < |a.others|
  {
    && PresentLength(a.others[i], pkg) > 0
    && (forall n :: n in a.selected ==> OwnedLength(n, pkg) < PresentLength(a.others[i], pkg))
    && (forall j :: 0 <= j < |a.others| ==> PresentLength(a.others[j], pkg) <= PresentLength(a.others[i], pkg))
    && (forall j :: 0 <= j < i ==> PresentLength(a.others[j], pkg) < PresentLength(a.others[i], pkg))
  }

  /** There is one owner. */
  lemma OwnerIsUnique(a: Attribution, pkg: string, o: Owner, q: Owner)
    requires IsOwner(a, pkg, o) && IsOwner(a, pkg, q)
    ensures o == q
  {
    hide OwnedLength, PresentLength, Unattributed;
    if !Unattributed(a, pkg) && o.Other? && q.Other? {
      var i :| 0 <= i < |a.others| && a.others[i] == o.package && IsOtherOwner(a, pkg, i);
      var j :| 0 <= j < |a.others| && a.others[j] == q.package && IsOtherOwner(a, pkg, j);
      assert i == j;
    }
  }

  method OwnerOf(a: Attribution, pkg: string) returns (o: Owner)
    ensures IsOwner(a, pkg, o)
  {
    hide OwnedLength, PresentLength;
    if Unattributed(a, pkg) {
      return NoOwner;
    }
    var best: nat := 0;
    o := NoOwner;
    for i := 0 to |a.selected|
      invariant o == if best > 0 then Selected else NoOwner
      invariant forall k :: 0 <= k < i ==> OwnedLength(a.selected[k], pkg) <= best
      invariant best > 0 ==> exists k :: 0 <= k < i && OwnedLength(a.selected[k], pkg) == best
    {
      var l := OwnedLength(a.selected[i], pkg);
      if l > best {
        best, o := l, Selected;
      }
    }
    ghost var mine, at := best, 0;
    for i := 0 to |a.others|
      invariant best >= mine && (best == mine ==> o == if mine > 0 then Selected else NoOwner)
      invariant forall k :: 0 <= k < i ==> PresentLength(a.others[k], pkg) <= best
      invariant best > mine ==>
                  && 0 <= at < i && o == Other(a.others[at]) && PresentLength(a.others[at], pkg) == best
                  && forall k :: 0 <= k < at ==> PresentLength(a.others[k], pkg) < best
    {
      var l := PresentLength(a.others[i], pkg);
      if l > best {
        best, o := l, Other(a.others[i]);
        at := i;
      }
    }
    assert best > mine ==> IsOtherOwner(a, pkg, at);
  }

  // ----- counting -----

  /** The owner rules the path out: another package, every version of it refuted. */
  ghost predicate Dropped(a: Attribution, owner: Owner, o: Comparators) {
    owner.Other? && EveryVersionRefuted(owner.package.judged, a.trust, o)
  }

  datatype Group = Own | Loose | Others

  ghost predicate InGroup(a: Attribution, owner: Owner, g: Group, o: Comparators) {
    match g
    case Own => owner.Selected?
    case Loose => owner.NoOwner?
    case Others => owner.Other? && !Dropped(a, owner, o)
  }

  /** The paths of a group, in their input order. */
  ghost function Filtered(a: Attribution, paths: seq<Path>, owners: seq<Owner>, g: Group,
                          o: Comparators): (r: seq<Path>)
    requires |owners| == |paths|
    ensures forall p :: p in r <==> exists i :: 0 <= i < |paths| && paths[i] == p && InGroup(a, owners[i], g, o)
  {
    if paths == [] then []
    else
      var n := |paths| - 1;
      Filtered(a, paths[..n], owners[..n], g, o) + if InGroup(a, owners[n], g, o) then [paths[n]] else []
  }

  ghost predicate Owned(a: Attribution, paths: seq<Path>, owners: seq<Owner>) {
    |owners| == |paths| && forall i :: 0 <= i < |paths| ==> IsOwner(a, paths[i].sinkPackage, owners[i])
  }

  lemma FilteredStep(a: Attribution, paths: seq<Path>, i: nat, owners: seq<Owner>, owner: Owner, g: Group,
                     o: Comparators)
    requires i < |paths| && |owners| == i
    ensures Filtered(a, paths[..i + 1], owners + [owner], g, o) ==
            if InGroup(a, owner, g, o) then Filtered(a, paths[..i], owners, g, o) + [paths[i]]
              else Filtered(a, paths[..i], owners, g, o)
  {
    hide InGroup;
    assert paths[..i + 1][..i] == paths[..i] && (owners + [owner])[..i] == owners;
  }

  ghost predicate CountedFor(paths: seq<Path>, a: Attribution, owners: seq<Owner>, kept: seq<Path>, o: Comparators) {
    && Owned(a, paths, owners)
    && kept == Filtered(a, paths, owners, Own, o) + Filtered(a, paths, owners, Loose, o)
         + Filtered(a, paths, owners, Others, o)
  }

  /** The selected package's own paths, then the unattributed, then the other packages' not ruled out. */
  ghost predicate Counted(paths: seq<Path>, a: Attribution, kept: seq<Path>, o: Comparators) {
    exists owners: seq<Owner> :: CountedFor(paths, a, owners, kept, o)
  }

  method CountedReachPaths(paths: seq<Path>, a: Attribution, o: Comparators) returns (kept: seq<Path>)
    ensures Counted(paths, a, kept, o)
  {
    hide Filtered, IsOwner, EveryVersionRefuted;
    var own, unattributed, other := [], [], [];
    ghost var owners: seq<Owner> := [];
    NothingFiltered(a, paths, o);
    for i := 0 to |paths|
      invariant |owners| == i && Owned(a, paths[..i], owners)
      invariant own == Filtered(a, paths[..i], owners, Own, o)
      invariant unattributed == Filtered(a, paths[..i], owners, Loose, o)
      invariant other == Filtered(a, paths[..i], owners, Others, o)
    {
      var owner := OwnerOf(a, paths[i].sinkPackage);
      FilteredStep(a, paths, i, owners, owner, Own, o);
      FilteredStep(a, paths, i, owners, owner, Loose, o);
      FilteredStep(a, paths, i, owners, owner, Others, o);
      match owner {
        case Selected => own := own + [paths[i]];
        case NoOwner => unattributed := unattributed + [paths[i]];
        case Other(p) =>
          var refuted := EveryVersionOutside(p.judged, a.trust, o);
          if !refuted {
            other := other + [paths[i]];
          }
      }
      owners := owners + [owner];
    }
    assert paths[..|paths|] == paths;
    kept := own + unattributed + other;
    assert CountedFor(paths, a, owners, kept, o);
  }

  lemma NothingFiltered(a: Attribution, paths: seq<Path>, o: Comparators)
    ensures forall g :: Filtered(a, paths[..0], [], g, o) == []
  {
  }

  lemma {:induction false} GroupsSplit(a: Attribution, paths: seq<Path>, owners: seq<Owner>, o: Comparators)
    requires |owners| == |paths|
    ensures |Filtered(a, paths, owners, Own, o)| + |Filtered(a, paths, owners, Loose, o)|
            + |Filtered(a, paths, owners, Others, o)|
            <= |paths|
  {
    hide Dropped;
    if paths != [] {
      GroupsSplit(a, paths[..|paths| - 1], owners[..|paths| - 1], o);
    }
  }

  /**
   Every path counts but those whose owner is another affected package present in the build which
   first-party facts prove outside: every version of it outside every one of its ranges. Nothing is added.
   */
  lemma OnlyRefutedPathsAreDropped(paths: seq<Path>, a: Attribution, kept: seq<Path>, o: Comparators)
    requires Counted(paths, a, kept, o)
    ensures |kept| <= |paths| && forall p :: p in kept ==> p in paths
    ensures forall p :: p in paths && p !in kept ==> RuledOut(a, p, o)
  {
    hide IsOwner, EveryVersionRefuted, AllProvedOutside;
    var owners: seq<Owner> :| CountedFor(paths, a, owners, kept, o);
    GroupsSplit(a, paths, owners, o);
    forall p | p in paths && p !in kept ensures RuledOut(a, p, o) {
      var i :| 0 <= i < |paths| && paths[i] == p;
      assert !InGroup(a, owners[i], Own, o) && !InGroup(a, owners[i], Loose, o) && !InGroup(a, owners[i], Others, o);
      OtherIsPresent(a, p.sinkPackage, owners[i]);
      RefutedMeansProved(owners[i].package.judged, a.trust, o);
      assert IsOwner(a, p.sinkPackage, Other(owners[i].package));
    }
  }

  /** Another present package owns the sink, and first-party facts prove it outside. */
  ghost predicate RuledOut(a: Attribution, p: Path, o: Comparators) {
    && a.trust == FirstParty
    && exists q :: q in a.others && IsOwner(a, p.sinkPackage, Other(q)) && AllProvedOutside(q.judged, o)
  }

  lemma OtherIsPresent(a: Attribution, pkg: string, owner: Owner)
    requires IsOwner(a, pkg, owner) && owner.Other?
    ensures owner.package in a.others
  {
  }

  // ----- how long an owning name is -----

  /** The name owns the import path with its first n characters: the whole name, up to the end or a slash; for the
      standard library the first element, which has no dot. */
  ghost predicate OwnsFirst(name: string, pkg: string, n: nat) {
    && 0 < n <= |pkg| && (n == |pkg| || pkg[n] == '/')
    && if name == STDLIB then forall i :: 0 <= i < n ==> pkg[i] != '/' && pkg[i] != '.'
       else name == pkg[..n]
  }

  lemma BoundaryIs(name: string, pkg: string)
    ensures pkg == name || name + "/" <= pkg <==>
            |name| <= |pkg| && name == pkg[..|name|] && (|name| == |pkg| || pkg[|name|] == '/')
  {
    if |name| < |pkg| {
      assert pkg[..|name| + 1] == pkg[..|name|] + [pkg[|name|]];
    }
  }

  lemma OwnedLengthIs(name: string, pkg: string, n: nat)
    requires n > 0
    ensures OwnedLength(name, pkg) == n <==> OwnsFirst(name, pkg, n)
  {
    BoundaryIs(name, pkg);
    if name == STDLIB {
      var f := FirstElement(pkg);
      assert forall i :: 0 <= i < |f| ==> f[i] == pkg[i];
    }
  }

  /** A package owns with the longer of its names that do. */
  lemma PresentLengthIs(p: Present, pkg: string, n: nat)
    requires n > 0
    ensures PresentLength(p, pkg) == n <==>
            && (OwnsFirst(p.module_, pkg, n) || OwnsFirst(p.coordinate, pkg, n))
            && forall m: nat :: m > n ==> !OwnsFirst(p.module_, pkg, m) && !OwnsFirst(p.coordinate, pkg, m)
  {
    hide OwnedLength, OwnsFirst;
    var a, b := OwnedLength(p.module_, pkg), OwnedLength(p.coordinate, pkg);
    forall m: nat | m > 0
      ensures a == m <==> OwnsFirst(p.module_, pkg, m)
      ensures b == m <==> OwnsFirst(p.coordinate, pkg, m) {
      OwnedLengthIs(p.module_, pkg, m);
      OwnedLengthIs(p.coordinate, pkg, m);
    }
    if a > 0 { assert OwnsFirst(p.module_, pkg, a); }
    if b > 0 { assert OwnsFirst(p.coordinate, pkg, b); }
  }

  /** The project's own paths are owned by nothing. */
  lemma UnattributedIs(a: Attribution, pkg: string)
    ensures Unattributed(a, pkg) <==>
            || pkg == ""
            || (a.project != "" && |a.project| <= |pkg| && a.project == pkg[..|a.project|]
                && (|a.project| == |pkg| || pkg[|a.project|] == '/'))
  {
    BoundaryIs(a.project, pkg);
  }
}
