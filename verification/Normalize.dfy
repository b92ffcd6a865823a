/** The canonical order Normalize gives a document's modules, nodes and edges (buildgraph/schema.go).
    sort.Slice is any sorted permutation: the order it leaves equal elements in is not fixed. */
module Normalize {
  import opened GoStrings
  import opened Schema

  predicate NodeBefore(a: Node, b: Node) {
    CompareText(a.id, b.id) <= 0
  }

  predicate EdgeBefore(a: Edge, b: Edge) {
    if a.from != b.from then CompareText(a.from, b.from) < 0 else CompareText(a.to, b.to) <= 0
  }

  predicate ModuleBefore(a: Module, b: Module) {
    if a.path != b.path then CompareText(a.path, b.path) < 0 else CompareText(a.id, b.id) <= 0
  }

  ghost predicate Sorted<T>(s: seq<T>, before: (T, T) -> bool) {
    forall i, j :: 0 <= i < j < |s| ==> before(s[i], s[j])
  }

  ghost predicate IsSort<T>(s: seq<T>, out: seq<T>, before: (T, T) -> bool) {
    multiset(out) == multiset(s) && Sorted(out, before)
  }

  /** n is m with its nodes and edges sorted. */
  ghost predicate SortedForm(m: Module, n: Module) {
    n == m.(nodes := n.nodes, edges := n.edges) && IsSort(m.nodes, n.nodes, NodeBefore)
      && IsSort(m.edges, n.edges, EdgeBefore)
  }

  ghost predicate Forms(ms: seq<Module>, inner: seq<Module>) {
    |inner| == |ms| && forall i :: 0 <= i < |ms| ==> SortedForm(ms[i], inner[i])
  }

  /** What Normalize leaves of the modules: each sorted inside, and all of them by path and id. */
  ghost predicate Normalized(ms: seq<Module>, out: seq<Module>) {
    exists inner: seq<Module> :: Forms(ms, inner) && IsSort(inner, out, ModuleBefore)
  }

  /** The same module but for the order of its nodes and edges. */
  ghost predicate Rearranged(a: Module, b: Module) {
    b == a.(nodes := b.nodes, edges := b.edges) && multiset(a.nodes) == multiset(b.nodes)
      && multiset(a.edges) == multiset(b.edges)
  }

  ghost predicate Rearrangements(a: seq<Module>, c: seq<Module>) {
    |c| == |a| && forall i :: 0 <= i < |a| ==> Rearranged(a[i], c[i])
  }

  /** The same document but for the order of its modules and of their nodes and edges. */
  ghost predicate SameDocument(a: seq<Module>, b: seq<Module>) {
    exists c: seq<Module> :: Rearrangements(a, c) && multiset(c) == multiset(b)
  }

  // ----- sorted permutations -----

  lemma {:induction false} SortedIsUnique<T>(a: seq<T>, b: seq<T>, before: (T, T) -> bool)
    requires multiset(a) == multiset(b) && Sorted(a, before) && Sorted(b, before)
    requires forall x, y :: x in a && y in a && before(x, y) && before(y, x) ==> x == y
    ensures a == b
    decreases |a|
  {
    assert |a| == |multiset(a)| == |multiset(b)| == |b|;
    if a != [] {
      FirstIsLeast(a, b, before);
      FirstIsLeast(b, a, before);
      SameMembers(a, b);
      assert a[0] in a && b[0] in b;
      assert a[0] == b[0];
      WithoutCounts(a, 0);
      WithoutCounts(b, 0);
      SortedIsUnique(Without(a, 0), Without(b, 0), before);
      WithoutFirst(a);
      WithoutFirst(b);
    }
  }

  lemma FirstIsLeast<T>(a: seq<T>, b: seq<T>, before: (T, T) -> bool)
    requires a != [] && b != [] && multiset(a) == multiset(b) && Sorted(a, before)
    ensures b[0] == a[0] || before(a[0], b[0])
  {
    SameMembers(a, b);
    assert b[0] in a;
  }

  function Without<T>(s: seq<T>, i: nat): (r: seq<T>)
    requires i < |s|
    ensures |r| == |s| - 1
    ensures forall k :: 0 <= k < |r| ==> r[k] == s[if k < i then k else k + 1]
  {
    s[..i] + s[i + 1..]
  }

  lemma WithoutCounts<T>(s: seq<T>, i: nat)
    requires i < |s|
    ensures multiset(Without(s, i)) == multiset(s) - multiset{s[i]}
    ensures multiset(s) == multiset(Without(s, i)) + multiset{s[i]}
  {
    assert s == s[..i] + [s[i]] + s[i + 1..];
  }

  lemma WithoutFirst<T>(s: seq<T>)
    requires s != []
    ensures s == [s[0]] + Without(s, 0)
  {
  }

  lemma SameMembers<T>(a: seq<T>, b: seq<T>)
    requires multiset(a) == multiset(b)
    ensures forall x :: x in a <==> x in b
  {
    forall x ensures x in a <==> x in b {
      assert x in a <==> x in multiset(a);
      assert x in b <==> x in multiset(b);
    }
  }

  lemma EdgesAntisymmetric(a: Edge, b: Edge)
    requires EdgeBefore(a, b) && EdgeBefore(b, a)
    ensures a == b
  {
    TextAntisymmetric(a.from, b.from);
    TextAntisymmetric(a.to, b.to);
  }

  lemma NodesAntisymmetric(nodes: seq<Node>, a: Node, b: Node)
    requires UniqueIDs(nodes) && a in nodes && b in nodes && NodeBefore(a, b) && NodeBefore(b, a)
    ensures a == b
  {
    TextAntisymmetric(a.id, b.id);
  }

  ghost predicate DistinctModules(ms: seq<Module>) {
    forall i, j :: 0 <= i < j < |ms| ==> ms[i].id != ms[j].id
  }

  lemma ModulesAntisymmetric(ms: seq<Module>, a: Module, b: Module)
    requires DistinctModules(ms) && a in ms && b in ms && ModuleBefore(a, b) && ModuleBefore(b, a)
    ensures a == b
  {
    TextAntisymmetric(a.path, b.path);
    TextAntisymmetric(a.id, b.id);
  }

  // ----- one normal form -----

  lemma {:induction false} UniqueIDsMoves(a: seq<Node>, b: seq<Node>)
    requires multiset(a) == multiset(b) && UniqueIDs(a)
    ensures UniqueIDs(b)
  {
    forall i, j | 0 <= i < j < |b| ensures b[i].id != b[j].id {
      Occurs(b, i, j);
      SameMembers(a, b);
      assert b[i] in a && b[j] in a;
      var k :| 0 <= k < |a| && a[k] == b[i];
      OneOccurrence(a, k);
    }
  }

  /** Two equal places count twice. */
  lemma Occurs<T>(s: seq<T>, i: nat, j: nat)
    requires i < j < |s|
    ensures s[i] == s[j] ==> multiset(s)[s[i]] >= 2
  {
    var front, back := s[..j], s[j..];
    assert s == front + back && s[i] in front && s[j] in back;
    assert front[i] == s[i] && back[0] == s[j];
    assert multiset(s) == multiset(front) + multiset(back);
  }

  lemma OneOccurrence(a: seq<Node>, k: nat)
    requires UniqueIDs(a) && k < |a|
    ensures multiset(a)[a[k]] == 1
  {
    var front, back := a[..k], a[k + 1..];
    assert a == front + [a[k]] + back;
    assert a[k] !in front && a[k] !in back;
    assert multiset(a) == multiset(front) + multiset{a[k]} + multiset(back);
  }

  /** The sorted forms of rearranged modules are equal. */
  lemma SortedFormsAgree(a: Module, b: Module, m: Module, n: Module)
    requires UniqueIDs(a.nodes) && Rearranged(a, b) && SortedForm(a, m) && SortedForm(b, n)
    ensures m == n
  {
    hide NodeBefore, EdgeBefore;
    UniqueIDsMoves(a.nodes, m.nodes);
    forall x, y | x in m.nodes && y in m.nodes && NodeBefore(x, y) && NodeBefore(y, x) ensures x == y {
      NodesAntisymmetric(m.nodes, x, y);
    }
    SortedIsUnique(m.nodes, n.nodes, NodeBefore);
    forall x, y | x in m.edges && y in m.edges && EdgeBefore(x, y) && EdgeBefore(y, x) ensures x == y {
      EdgesAntisymmetric(x, y);
    }
    SortedIsUnique(m.edges, n.edges, EdgeBefore);
  }

  /** A list rearranged element by element, after the list itself was. */
  lemma {:induction false} MatchingForms(c: seq<Module>, b: seq<Module>, inner: seq<Module>, other: seq<Module>)
    requires multiset(c) == multiset(b) && Forms(c, inner) && Forms(b, other)
    requires forall i :: 0 <= i < |c| ==> UniqueIDs(c[i].nodes)
    ensures multiset(inner) == multiset(other)
    decreases |c|
  {
    hide SortedForm, UniqueIDs, Without, Rearranged;
    assert |c| == |multiset(c)| == |multiset(b)| == |b|;
    if c != [] {
      SameMembers(c, b);
      assert c[0] in b;
      var i :| 0 <= i < |b| && b[i] == c[0];
      WithoutCounts(c, 0);
      WithoutCounts(b, i);
      MatchingForms(Without(c, 0), Without(b, i), Without(inner, 0), Without(other, i));
      WithoutCounts(inner, 0);
      WithoutCounts(other, i);
      RearrangedItself(c[0]);
      SortedFormsAgree(c[0], b[i], inner[0], other[i]);
    } else {
      assert inner == [] && other == [];
    }
  }

  lemma RearrangedItself(m: Module)
    ensures Rearranged(m, m)
  {
  }

  /**
   A valid document has one normal form, whatever order its modules, nodes and edges come in and
   whatever order the sorts leave equal elements in.
   */
  lemma NormalFormIsUnique(a: seq<Module>, b: seq<Module>, x: seq<Module>, y: seq<Module>)
    requires ValidModules(a) && SameDocument(a, b) && Normalized(a, x) && Normalized(b, y)
    ensures x == y
  {
    hide SortedForm, Rearranged, ModuleBefore, ValidModules, UniqueIDs;
    var c: seq<Module> :| Rearrangements(a, c) && multiset(c) == multiset(b);
    var inner: seq<Module> :| Forms(a, inner) && IsSort(inner, x, ModuleBefore);
    var other: seq<Module> :| Forms(b, other) && IsSort(other, y, ModuleBefore);
    ValidIsUnique(a);
    forall i | 0 <= i < |a| ensures UniqueIDs(c[i].nodes) && SortedForm(c[i], inner[i]) && inner[i].id == a[i].id {
      FormOfRearranged(a[i], c[i], inner[i]);
    }
    MatchingForms(c, b, inner, other);
    SameMembers(inner, x);
    forall m, n | m in x && n in x && ModuleBefore(m, n) && ModuleBefore(n, m) ensures m == n {
      ModulesAntisymmetric(inner, m, n);
    }
    SortedIsUnique(x, y, ModuleBefore);
  }

  lemma ValidIsUnique(ms: seq<Module>)
    requires ValidModules(ms)
    ensures DistinctModules(ms) && forall i :: 0 <= i < |ms| ==> UniqueIDs(ms[i].nodes)
  {
    hide ValidCopy, NamedByCoordinates;
    assert forall i :: 0 <= i < |ms| ==> ValidModule(ms[i]);
  }

  lemma FormOfRearranged(a: Module, c: Module, m: Module)
    requires UniqueIDs(a.nodes) && Rearranged(a, c) && SortedForm(a, m)
    ensures UniqueIDs(c.nodes) && SortedForm(c, m) && m.id == a.id
  {
    UniqueIDsMoves(a.nodes, c.nodes);
  }

  /** A normal form is its own, the only one, normal form. */
  lemma NormalizingAgainChangesNothing(a: seq<Module>, x: seq<Module>, y: seq<Module>)
    requires ValidModules(a) && Normalized(a, x) && Normalized(x, y)
    ensures x == y
  {
    hide ValidModules, ModuleBefore, NodeBefore, EdgeBefore, UniqueIDs;
    var inner: seq<Module> :| Forms(a, inner) && IsSort(inner, x, ModuleBefore);
    assert forall i :: 0 <= i < |a| ==> SortedForm(a[i], inner[i]);
    assert Rearrangements(a, inner);
    assert SameDocument(a, x);
    NormalFormIsUnique(a, x, x, y);
  }

  // ----- there is a normal form, and it is as valid as the document -----

  ghost predicate TotalPreorder<T(!new)>(before: (T, T) -> bool) {
    && (forall a, b :: before(a, b) || before(b, a))
    && (forall a, b, c :: before(a, b) && before(b, c) ==> before(a, c))
  }

  lemma SortedAppend<T(!new)>(s: seq<T>, last: T, before: (T, T) -> bool)
    requires Sorted(s, before) && forall y :: y in s ==> before(y, last)
    ensures Sorted(s + [last], before)
  {
  }

  lemma BelowLast<T(!new)>(s: seq<T>, x: T, before: (T, T) -> bool)
    requires TotalPreorder(before) && Sorted(s, before) && s != [] && before(s[|s| - 1], x)
    ensures forall y :: y in s ==> before(y, x)
  {
  }

  lemma {:induction false} Inserted<T(!new)>(x: T, s: seq<T>, before: (T, T) -> bool) returns (out: seq<T>)
    requires TotalPreorder(before) && Sorted(s, before)
    ensures IsSort(s + [x], out, before)
  {
    if s == [] || before(s[|s| - 1], x) {
      if s != [] { BelowLast(s, x, before); }
      out := s + [x];
      SortedAppend(s, x, before);
    } else {
      var less, last := s[..|s| - 1], s[|s| - 1];
      assert s == less + [last];
      var front := Inserted(x, less, before);
      SameMembers(less + [x], front);
      assert before(x, last);
      forall y | y in front ensures before(y, last) {
        assert y in less || y == x;
      }
      SortedAppend(front, last, before);
      out := front + [last];
    }
  }

  lemma {:induction false} SortExists<T(!new)>(s: seq<T>, before: (T, T) -> bool) returns (out: seq<T>)
    requires TotalPreorder(before)
    ensures IsSort(s, out, before)
  {
    hide TotalPreorder, Sorted;
    if s == [] {
      out := [];
      assert Sorted(out, before) by { NothingSorted(before); }
    } else {
      var less, last := s[..|s| - 1], s[|s| - 1];
      var sorted := SortExists(less, before);
      out := Inserted(last, sorted, before);
      assert s == less + [last];
    }
  }

  lemma NothingSorted<T>(before: (T, T) -> bool)
    ensures Sorted([], before)
  {
  }

  lemma OrdersAreTotal()
    ensures TotalPreorder(NodeBefore) && TotalPreorder(EdgeBefore) && TotalPreorder(ModuleBefore)
  {
    forall s, t ensures CompareText(s, t) == -CompareText(t, s) && (CompareText(s, t) == 0 <==> s == t) {
      TextAntisymmetric(s, t);
    }
    forall s, t, u | CompareText(s, t) <= 0 && CompareText(t, u) <= 0
      ensures CompareText(s, u) <= 0 && (CompareText(s, u) == 0 ==> CompareText(s, t) == 0 && CompareText(t, u) == 0) {
      TextTransitive(s, t, u);
    }
    hide CompareText;
  }

  lemma {:induction false} FormsExist(ms: seq<Module>) returns (inner: seq<Module>)
    ensures Forms(ms, inner)
  {
    hide TotalPreorder, IsSort, NodeBefore, EdgeBefore;
    inner := [];
    if ms != [] {
      OrdersAreTotal();
      var less, m := ms[..|ms| - 1], ms[|ms| - 1];
      var front := FormsExist(less);
      var nodes := SortExists(m.nodes, NodeBefore);
      var edges := SortExists(m.edges, EdgeBefore);
      inner := front + [m.(nodes := nodes, edges := edges)];
    }
  }

  lemma ValidRearranged(a: seq<Module>, b: seq<Module>)
    requires Rearrangements(a, b) && ValidModules(a)
    ensures ValidModules(b)
  {
    hide ValidModule;
    forall i | 0 <= i < |b| ensures ValidModule(b[i]) && ValidCopy(b, b[i]) {
      assert ValidModule(a[i]) && ValidCopy(a, a[i]) && Rearranged(a[i], b[i]);
      ModuleRearranged(a[i], b[i]);
    }
  }

  lemma ModuleRearranged(a: Module, b: Module)
    requires Rearranged(a, b) && ValidModule(a)
    ensures ValidModule(b)
  {
    hide NamedByCoordinates;
    UniqueIDsMoves(a.nodes, b.nodes);
    SameMembers(a.nodes, b.nodes);
    SameMembers(a.edges, b.edges);
    HoldsMoves(a.nodes, b.nodes);
    forall i | 0 <= i < |b.nodes| ensures NamedByCoordinates(b.nodes[i]) {
      assert b.nodes[i] in a.nodes;
    }
    forall i | 0 <= i < |b.edges| ensures Holds(b.nodes, b.edges[i].from) && Holds(b.nodes, b.edges[i].to) {
      assert b.edges[i] in a.edges;
    }
  }

  lemma HoldsMoves(a: seq<Node>, b: seq<Node>)
    requires forall n :: n in a ==> n in b
    ensures forall id :: Holds(a, id) ==> Holds(b, id)
  {
    forall id | Holds(a, id) ensures Holds(b, id) {
      var i :| 0 <= i < |a| && a[i].id == id;
      assert a[i] in b;
    }
  }

  lemma ValidPermuted(a: seq<Module>, b: seq<Module>)
    requires multiset(a) == multiset(b) && ValidModules(a)
    ensures ValidModules(b)
  {
    hide ValidModule;
    SameMembers(a, b);
    forall i | 0 <= i < |b| ensures ValidModule(b[i]) && ValidCopy(b, b[i]) {
      assert b[i] in a;
      if b[i].copyOf != "" {
        var j :| 0 <= j < |a| && a[j] == b[i];
        var k := CopiedFrom(a, j);
        assert a[k] in b;
      }
    }
    forall i, j | 0 <= i < j < |b| ensures b[i].id != b[j].id {
      Occurs(b, i, j);
      assert b[i] in a && b[j] in a;
      var k :| 0 <= k < |a| && a[k] == b[i];
      ModuleOnce(a, k);
    }
  }

  lemma CopiedFrom(ms: seq<Module>, j: nat) returns (k: nat)
    requires j < |ms| && ms[j].copyOf != "" && ValidCopy(ms, ms[j])
    ensures k < |ms| && ms[k].id == ms[j].copyOf && ms[k].copyOf == "" && ms[k].path == ms[j].path
    ensures ms[k].root == ms[j].root && ms[j].copyOf + "#" <= ms[j].id
  {
    k :| 0 <= k < |ms| && ms[k].id == ms[j].copyOf && ms[k].copyOf == "" && ms[k].path == ms[j].path
      && ms[k].root == ms[j].root && ms[j].copyOf + "#" <= ms[j].id;
  }

  lemma ModuleOnce(a: seq<Module>, k: nat)
    requires DistinctModules(a) && k < |a|
    ensures multiset(a)[a[k]] == 1
  {
    var front, back := a[..k], a[k + 1..];
    assert a == front + [a[k]] + back;
    assert a[k] !in front && a[k] !in back;
    assert multiset(a) == multiset(front) + multiset{a[k]} + multiset(back);
  }

  /** Normalizing makes no document valid and no valid one invalid. */
  lemma NormalizingKeepsValidity(a: seq<Module>, x: seq<Module>)
    requires Normalized(a, x)
    ensures ValidModules(x) <==> ValidModules(a)
  {
    hide ValidModules, NodeBefore, EdgeBefore, ModuleBefore;
    var inner: seq<Module> :| Forms(a, inner) && IsSort(inner, x, ModuleBefore);
    assert forall i :: 0 <= i < |a| ==> SortedForm(a[i], inner[i]);
    if ValidModules(a) {
      ValidRearranged(a, inner);
      ValidPermuted(inner, x);
    }
    if ValidModules(x) {
      ValidPermuted(x, inner);
      ValidRearranged(inner, a);
    }
  }

  /** Every document has a normal form. */
  lemma NormalFormExists(a: seq<Module>) returns (x: seq<Module>)
    ensures Normalized(a, x)
  {
    hide TotalPreorder, IsSort, Forms;
    OrdersAreTotal();
    var inner := FormsExist(a);
    x := SortExists(inner, ModuleBefore);
  }

  // ----- which way the lists go -----

  /** In a normal form ids, edges and modules ascend in the order of their text. */
  lemma NormalFormAscends(a: seq<Module>, x: seq<Module>)
    requires Normalized(a, x)
    ensures forall i, j :: 0 <= i < j < |x| ==>
              TextBefore(x[i].path, x[j].path) || (x[i].path == x[j].path && !TextBefore(x[j].id, x[i].id))
    ensures forall k, i, j :: 0 <= k < |x| && 0 <= i < j < |x[k].nodes| ==>
              !TextBefore(x[k].nodes[j].id, x[k].nodes[i].id)
    ensures forall k, i, j :: 0 <= k < |x| && 0 <= i < j < |x[k].edges| ==>
              var e, f := x[k].edges[i], x[k].edges[j];
              TextBefore(e.from, f.from) || (e.from == f.from && !TextBefore(f.to, e.to))
  {
    forall s, t ensures CompareText(s, t) < 0 <==> TextBefore(s, t) {
      TextOrder(s, t);
    }
    forall s, t ensures CompareText(s, t) == -CompareText(t, s) {
      TextAntisymmetric(s, t);
    }
    hide CompareText, TextBefore;
    var inner: seq<Module> :| Forms(a, inner) && IsSort(inner, x, ModuleBefore);
    SameMembers(inner, x);
    forall k | 0 <= k < |x| ensures Sorted(x[k].nodes, NodeBefore) && Sorted(x[k].edges, EdgeBefore) {
      assert x[k] in inner;
      var l :| 0 <= l < |inner| && inner[l] == x[k];
      assert SortedForm(a[l], inner[l]);
    }
  }
}
