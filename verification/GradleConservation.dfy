/**
 Nothing resolved is lost or repeated across the folded module and its classpath copies, and
 everything returned passes validation.
 */
module GradleConservation {
  import opened GoStrings
  import opened Schema
  import opened GradleFold
  import opened GradleProperties

  // ----- counting -----

  function CountID(nodes: seq<Node>, id: string): nat {
    if nodes == [] then 0 else CountID(nodes[..|nodes| - 1], id) + if nodes[|nodes| - 1].id == id then 1 else 0
  }

  function Occurrences(ms: seq<Module>, id: string): nat {
    if ms == [] then 0 else Occurrences(ms[..|ms| - 1], id) + CountID(ms[|ms| - 1].nodes, id)
  }

  lemma {:induction false} CountUnique(nodes: seq<Node>, id: string)
    requires UniqueIDs(nodes)
    ensures CountID(nodes, id) == if id in IDs(nodes) then 1 else 0
  {
    if nodes == [] {
      NoIDs();
    } else {
      var less, last := nodes[..|nodes| - 1], nodes[|nodes| - 1];
      CountUnique(less, id);
      assert nodes == less + [last];
      IDsAppend(less, last);
      assert forall i :: 0 <= i < |less| ==> less[i] == nodes[i] && nodes[i].id != nodes[|nodes| - 1].id;
    }
  }

  lemma OccurrencesAppend(ms: seq<Module>, c: Module, id: string)
    ensures Occurrences(ms + [c], id) == Occurrences(ms, id) + CountID(c.nodes, id)
  {
    assert (ms + [c])[..|ms|] == ms;
  }

  lemma {:induction false} OccurrencesFirst(m: Module, ms: seq<Module>, id: string)
    ensures Occurrences([m] + ms, id) == CountID(m.nodes, id) + Occurrences(ms, id)
  {
    if ms == [] {
      assert [m] + ms == [] + [m];
      OccurrencesAppend([], m, id);
    } else {
      var less, last := ms[..|ms| - 1], ms[|ms| - 1];
      OccurrencesFirst(m, less, id);
      assert [m] + ms == ([m] + less) + [last];
      OccurrencesAppend([m] + less, last, id);
    }
  }

  // ----- names -----

  ghost predicate WellNamed(nodes: seq<Node>) {
    forall i :: 0 <= i < |nodes| ==> ColonFree(nodes[i]) && Named(nodes[i])
  }

  lemma UniqueByKey(nodes: seq<Node>)
    requires WellNamed(nodes) && OneNodePerKey(nodes)
    ensures UniqueIDs(nodes)
  {
    hide Key, ColonFree, Named;
    forall i, j | 0 <= i < j < |nodes| ensures nodes[i].id != nodes[j].id {
      if nodes[i].id == nodes[j].id {
        NodeIDIsInjective(nodes[i], nodes[j]);
      }
    }
  }

  lemma FoldWellNamed(m: Module, root: Node, cps: seq<Translated>, onCompile: set<string>)
    requires GoodProject(root, cps) && IsFold(m, root, cps, onCompile)
    ensures WellNamed(m.nodes) && UniqueIDs(m.nodes)
  {
    hide Key, FirstPerKey, AllNodes, ScopeOf, NodeID, IsFold;
    FoldNodes(m, root, cps, onCompile);
    forall k | 0 <= k < |m.nodes| ensures ColonFree(m.nodes[k]) && Named(m.nodes[k]) {
      if k > 0 {
        assert KeptSomewhere(m.nodes[k], cps, onCompile);
        var c: nat, i: nat :| KeptFrom(m.nodes[k], cps, onCompile, c, i);
        assert GoodClasspath(root, cps[c]);
      }
    }
    UniqueByKey(m.nodes);
  }

  // ----- one copy module -----

  /** A node some classpath resolved for a coordinate other than the project's own. */
  ghost predicate WantedBy(cp: Translated, root: Node, id: string) {
    exists i :: 0 <= i < |cp.nodes| && cp.nodes[i].id == id && Key(cp.nodes[i]) != Key(root)
  }

  ghost predicate Wanted(cps: seq<Translated>, root: Node, id: string) {
    exists c :: 0 <= c < |cps| && WantedBy(cps[c], root, id)
  }

  lemma {:induction false} CopyIDs(items: seq<Node>, held: set<string>, rootKey: string)
    ensures var r := CopyNodes(items, held, rootKey);
            && UniqueIDs(r)
            && forall id :: id in IDs(r) <==> id !in held && exists i ::
                 0 <= i < |items| && items[i].id == id && Key(items[i]) != rootKey
  {
    hide Key;
    var r := CopyNodes(items, held, rootKey);
    if items == [] {
      NoIDs();
    } else {
      var less, n := items[..|items| - 1], items[|items| - 1];
      CopyIDs(less, held, rootKey);
      var before := CopyNodes(less, held, rootKey);
      IDsAppend(before, n);
      CopyStep(items, held, rootKey, before, r);
      if r != before {
        forall i | 0 <= i < |before| ensures before[i].id != n.id {
          assert before[i].id in IDs(before);
        }
      }
    }
  }

  lemma CopyStep(items: seq<Node>, held: set<string>, rootKey: string, before: seq<Node>, r: seq<Node>)
    requires items != []
    requires var less := items[..|items| - 1];
             forall id :: id in IDs(before) <==> id !in held && exists i ::
               0 <= i < |less| && less[i].id == id && Key(less[i]) != rootKey
    requires var n := items[|items| - 1];
             r == if n.id in held || n.id in IDs(before) || Key(n) == rootKey then before else before + [n]
    ensures forall id :: id in IDs(r) <==> id !in held && exists i ::
            0 <= i < |items| && items[i].id == id && Key(items[i]) != rootKey
  {
    hide Key, IDs;
    var less, n := items[..|items| - 1], items[|items| - 1];
    IDsAppend(before, n);
    forall id
      ensures id in IDs(r) <==> id !in held && exists i ::
              0 <= i < |items| && items[i].id == id && Key(items[i]) != rootKey {
      if i :| 0 <= i < |less| && less[i].id == id && Key(less[i]) != rootKey {
        assert items[i] == less[i];
      }
      if i :| 0 <= i < |items| && items[i].id == id && Key(items[i]) != rootKey {
        assert i < |less| ==> less[i] == items[i];
      }
      if id == n.id && Key(n) != rootKey {
        assert items[|items| - 1].id == id;
      }
    }
  }

  lemma ScopedWanted(cp: Translated, onCompile: set<string>, root: Node, id: string)
    ensures WantedBy(cp, root, id) <==>
            var items := Scoped(cp, onCompile); exists i ::
              0 <= i < |items| && items[i].id == id && Key(items[i]) != Key(root)
  {
    hide ScopeOf;
    var items := Scoped(cp, onCompile);
    forall i | 0 <= i < |items| ensures items[i].id == cp.nodes[i].id && Key(items[i]) == Key(cp.nodes[i]) {
      KeyIgnoresScope(cp.nodes[i], items[i].scope);
    }
    hide Key;
    if WantedBy(cp, root, id) {
      var i :| 0 <= i < |cp.nodes| && cp.nodes[i].id == id && Key(cp.nodes[i]) != Key(root);
      assert items[i].id == id;
    }
  }

  /** What one copy module holds besides the root. */
  lemma CopyHolds(m: Module, root: Node, cp: Translated, onCompile: set<string>, held: set<string>)
    requires root.id in held
    ensures var c := CopyModule(m, root, cp, onCompile, held);
            && UniqueIDs(c.nodes)
            && forall id :: id != root.id ==> (id in IDs(c.nodes) <==> id !in held && WantedBy(cp, root, id))
  {
    hide Key, Scoped, IDs, CopyNodes, UniqueIDs, WantedBy;
    var items := Scoped(cp, onCompile);
    var copies := CopyNodes(items, held, Key(root));
    CopyIDs(items, held, Key(root));
    forall id ensures id in IDs(copies) <==> id !in held && WantedBy(cp, root, id) {
      ScopedWanted(cp, onCompile, root, id);
    }
    IDsPrepend(root, copies);
    UniquePrepend(root, copies, held);
  }

  lemma UniquePrepend(root: Node, copies: seq<Node>, held: set<string>)
    requires root.id in held && UniqueIDs(copies) && forall n :: n in copies ==> n.id !in held
    ensures UniqueIDs([root] + copies)
  {
    var nodes := [root] + copies;
    forall i, j | 0 <= i < j < |nodes| ensures nodes[i].id != nodes[j].id {
      assert nodes[j] == copies[j - 1] && copies[j - 1] in copies;
      if i > 0 { assert nodes[i] == copies[i - 1]; }
    }
  }

  // ----- conservation -----

  /** What conservation says of the copies made so far. */
  ghost predicate Conserves(m: Module, root: Node, cps: seq<Translated>, copies: seq<Module>, id: string) {
    && Occurrences(copies, id) == (if id !in IDs(m.nodes) && Wanted(cps, root, id) then 1 else 0)
    && (id in Held([m] + copies) <==> id in IDs(m.nodes) || Wanted(cps, root, id))
  }

  lemma ConserveStep(m: Module, root: Node, cps: seq<Translated>, onCompile: set<string>, before: seq<Module>,
                     id: string)
    requires cps != [] && id != root.id && root.id in Held([m] + before)
    requires Conserves(m, root, cps[..|cps| - 1], before, id)
    ensures var c := CopyModule(m, root, cps[|cps| - 1], onCompile, Held([m] + before));
            Conserves(m, root, cps, if |c.nodes| == 1 then before else before + [c], id)
  {
    hide Key, IDs, Held, Occurrences, CountID, Wanted, WantedBy, CopyModule;
    var held := Held([m] + before);
    var c := CopyModule(m, root, cps[|cps| - 1], onCompile, held);
    CopyHolds(m, root, cps[|cps| - 1], onCompile, held);
    CountUnique(c.nodes, id);
    OccurrencesAppend(before, c, id);
    assert [m] + (before + [c]) == ([m] + before) + [c];
    HeldAppend([m] + before, c);
    WantedMore(cps, root, id);
    if |c.nodes| == 1 {
      RootOnly(m, root, cps[|cps| - 1], onCompile, held, id);
    }
  }

  lemma {:induction false} CopiesConserve(m: Module, root: Node, cps: seq<Translated>, onCompile: set<string>,
                                          id: string)
    requires m.nodes != [] && m.nodes[0] == root && id != root.id
    ensures Conserves(m, root, cps, CopyModules(m, root, cps, onCompile), id)
  {
    hide Key, CopyModule, IDs;
    var copies := CopyModules(m, root, cps, onCompile);
    if cps == [] {
      assert [m] + copies == [m];
      HeldOne(m);
    } else {
      hide Conserves, Held;
      var less := cps[..|cps| - 1];
      CopiesConserve(m, root, less, onCompile, id);
      HeldFirst(m, CopyModules(m, root, less, onCompile));
      FirstID(m.nodes);
      ConserveStep(m, root, cps, onCompile, CopyModules(m, root, less, onCompile), id);
    }
  }

  lemma FirstID(nodes: seq<Node>)
    requires nodes != []
    ensures nodes[0].id in IDs(nodes)
  {
  }

  lemma WantedMore(cps: seq<Translated>, root: Node, id: string)
    requires cps != []
    ensures Wanted(cps, root, id) <==> Wanted(cps[..|cps| - 1], root, id) || WantedBy(cps[|cps| - 1], root, id)
  {
    hide WantedBy;
    var less := cps[..|cps| - 1];
    assert forall c :: 0 <= c < |less| ==> less[c] == cps[c];
  }

  lemma RootOnly(m: Module, root: Node, cp: Translated, onCompile: set<string>, held: set<string>, id: string)
    requires |CopyModule(m, root, cp, onCompile, held).nodes| == 1 && id != root.id
    ensures id !in IDs(CopyModule(m, root, cp, onCompile, held).nodes)
  {
    hide Key, Scoped, CopyNodes;
  }

  /**
   Every id a classpath resolved for a coordinate other than the project's own lands in exactly one of
   the folded module and its copies, once; no other id but the root's lands anywhere.
   */
  lemma NothingLostOrRepeated(m: Module, root: Node, cps: seq<Translated>, onCompile: set<string>, id: string)
    requires GoodProject(root, cps) && IsFold(m, root, cps, onCompile) && id != root.id
    ensures Occurrences([m] + CopyModules(m, root, cps, onCompile), id) == if Wanted(cps, root, id) then 1 else 0
  {
    hide Key, FirstPerKey, AllNodes, CopyModules, IDs, CountID, Wanted, IsFold, GoodProject, UniqueIDs;
    FoldNodes(m, root, cps, onCompile);
    FoldWellNamed(m, root, cps, onCompile);
    CountUnique(m.nodes, id);
    OccurrencesFirst(m, CopyModules(m, root, cps, onCompile), id);
    CopiesConserve(m, root, cps, onCompile, id);
    if id in IDs(m.nodes) {
      KeptIsWanted(m, root, cps, onCompile, id);
    }
  }

  lemma KeptIsWanted(m: Module, root: Node, cps: seq<Translated>, onCompile: set<string>, id: string)
    requires IsFold(m, root, cps, onCompile) && id != root.id && id in IDs(m.nodes)
    ensures Wanted(cps, root, id)
  {
    hide Key, FirstPerKey, AllNodes, IsFold, Scoped;
    FoldNodes(m, root, cps, onCompile);
    var k :| 0 <= k < |m.nodes| && m.nodes[k].id == id;
    assert KeptSomewhere(m.nodes[k], cps, onCompile);
    var c: nat, i: nat :| KeptFrom(m.nodes[k], cps, onCompile, c, i);
    ScopedAt(cps[c], onCompile, i);
    KeyIgnoresScope(cps[c].nodes[i], m.nodes[k].scope);
    assert WantedBy(cps[c], root, id);
  }

  lemma ScopedAt(cp: Translated, onCompile: set<string>, i: nat)
    requires i < |cp.nodes|
    ensures Scoped(cp, onCompile)[i] == cp.nodes[i].(scope := Scoped(cp, onCompile)[i].scope)
  {
  }

  // ----- validity -----

  /** Classpaths of one name are one classpath. */
  ghost predicate NamesAgree(cps: seq<Translated>) {
    forall c, d :: 0 <= c < d < |cps| && cps[c].name == cps[d].name ==> cps[c].nodes == cps[d].nodes
  }

  ghost predicate OneVersionPerKey(cps: seq<Translated>) {
    forall c :: 0 <= c < |cps| ==> OneNodePerKey(cps[c].nodes)
  }

  /** A copy module of m for some classpath, as Validate and ingest want it. */
  ghost predicate GoodCopy(m: Module, c: Module, names: seq<Translated>) {
    && c.copyOf == m.id && c.path == m.path && c.root == m.root
    && (exists d :: 0 <= d < |names| && c.id == m.id + "#" + names[d].name)
    && WellNamed(c.nodes) && UniqueIDs(c.nodes) && OneNodePerKey(c.nodes)
    && Holds(c.nodes, c.root)
    && forall i :: 0 <= i < |c.edges| ==> Holds(c.nodes, c.edges[i].from) && Holds(c.nodes, c.edges[i].to)
  }

  /** Distinct nodes drawn from a list with one node per key have distinct keys. */
  lemma DrawnKeysDiffer(items: seq<Node>, copies: seq<Node>)
    requires OneNodePerKey(items) && UniqueIDs(copies) && forall n :: n in copies ==> n in items
    ensures OneNodePerKey(copies)
  {
    hide Key;
    forall i, j | 0 <= i < j < |copies| ensures Key(copies[i]) != Key(copies[j]) {
      assert copies[i] in copies && copies[j] in copies;
      var a :| 0 <= a < |items| && items[a] == copies[i];
      var b :| 0 <= b < |items| && items[b] == copies[j];
      assert a != b;
    }
  }

  lemma ScopedGood(root: Node, cp: Translated, onCompile: set<string>)
    requires GoodClasspath(root, cp) && OneNodePerKey(cp.nodes)
    ensures WellNamed(Scoped(cp, onCompile)) && OneNodePerKey(Scoped(cp, onCompile))
  {
    hide NodeID, ScopeOf;
    var items := Scoped(cp, onCompile);
    forall i | 0 <= i < |items| ensures Key(items[i]) == Key(cp.nodes[i]) && ColonFree(items[i]) && Named(items[i]) {
      KeyIgnoresScope(cp.nodes[i], items[i].scope);
    }
  }

  lemma CopyNodesGood(root: Node, cp: Translated, onCompile: set<string>, held: set<string>)
    requires ColonFree(root) && Named(root) && GoodClasspath(root, cp) && OneNodePerKey(cp.nodes) && root.id in held
    ensures var nodes := [root] + CopyNodes(Scoped(cp, onCompile), held, Key(root));
            WellNamed(nodes) && OneNodePerKey(nodes)
  {
    hide Key, CopyNodes, Scoped, Named, ColonFree, GoodClasspath;
    var items := Scoped(cp, onCompile);
    var copies := CopyNodes(items, held, Key(root));
    ScopedGood(root, cp, onCompile);
    CopyIDs(items, held, Key(root));
    DrawnKeysDiffer(items, copies);
    assert forall k :: 0 <= k < |copies| ==> copies[k] in copies;
    var nodes := [root] + copies;
    assert forall k :: 0 < k < |nodes| ==> nodes[k] == copies[k - 1];
  }

  lemma CopyIsGood(m: Module, root: Node, cp: Translated, onCompile: set<string>, held: set<string>,
                   names: seq<Translated>)
    requires ColonFree(root) && Named(root) && GoodClasspath(root, cp) && OneNodePerKey(cp.nodes) && root.id in held
    requires m.root == root.id && cp in names
    ensures GoodCopy(m, CopyModule(m, root, cp, onCompile, held), names)
  {
    hide Key, Scoped, CopyNodes, Named, ColonFree, GoodClasspath;
    var c := CopyModule(m, root, cp, onCompile, held);
    CopyNodesGood(root, cp, onCompile, held);
    CopyHolds(m, root, cp, onCompile, held);
    var copies := CopyNodes(Scoped(cp, onCompile), held, Key(root));
    IDsPrepend(root, copies);
    assert IDs(c.nodes) == IDs(copies) + {m.root};
    assert c.nodes[0].id == c.root;
    assert forall i :: 0 <= i < |c.edges| ==> c.edges[i] in c.edges;
    var d :| 0 <= d < |names| && names[d] == cp;
    assert c.id == m.id + "#" + names[d].name;
  }

  lemma SameName(m: Module, a: string, b: string)
    requires m.id + "#" + a == m.id + "#" + b
    ensures a == b
  {
    assert a == (m.id + "#" + a)[|m.id| + 1..];
    assert b == (m.id + "#" + b)[|m.id| + 1..];
  }

  /** A classpath whose name was met before has nothing left to copy. */
  lemma RepeatedNameIsEmpty(m: Module, root: Node, cps: seq<Translated>, onCompile: set<string>, d: nat)
    requires cps != [] && d < |cps| - 1 && cps[d].nodes == cps[|cps| - 1].nodes
    requires m.nodes != [] && m.nodes[0] == root
    ensures var before := CopyModules(m, root, cps[..|cps| - 1], onCompile);
            |CopyModule(m, root, cps[|cps| - 1], onCompile, Held([m] + before)).nodes| == 1
  {
    hide Key, IDs, CopyNodes, Scoped;
    var less, last := cps[..|cps| - 1], cps[|cps| - 1];
    var before := CopyModules(m, root, less, onCompile);
    var held := Held([m] + before);
    var copies := CopyNodes(Scoped(last, onCompile), held, Key(root));
    if copies != [] {
      var n := copies[0];
      assert n in copies;
      HeldFirst(m, before);
      FirstID(m.nodes);
      CopyIDs(Scoped(last, onCompile), held, Key(root));
      FirstID(copies);
      ScopedWanted(last, onCompile, root, n.id);
      assert less[d] == cps[d] && WantedBy(less[d], root, n.id);
      CopiesConserve(m, root, less, onCompile, n.id);
    }
  }

  ghost predicate GoodCopies(m: Module, cs: seq<Module>, names: seq<Translated>) {
    && (forall i :: 0 <= i < |cs| ==> GoodCopy(m, cs[i], names))
    && (forall i, j :: 0 <= i < j < |cs| ==> cs[i].id != cs[j].id)
  }

  lemma MoreNames(m: Module, cs: seq<Module>, less: seq<Translated>, names: seq<Translated>)
    requires GoodCopies(m, cs, less) && less <= names
    ensures GoodCopies(m, cs, names)
  {
    hide WellNamed, UniqueIDs, OneNodePerKey, Holds;
    forall i | 0 <= i < |cs| ensures GoodCopy(m, cs[i], names) {
      assert GoodCopy(m, cs[i], less);
      var d :| 0 <= d < |less| && cs[i].id == m.id + "#" + less[d].name;
      assert names[d] == less[d];
    }
  }

  lemma {:induction false} CopiesAreGood(m: Module, root: Node, cps: seq<Translated>, onCompile: set<string>)
    requires GoodProject(root, cps) && NamesAgree(cps) && OneVersionPerKey(cps)
    requires m.nodes != [] && m.nodes[0] == root && m.root == root.id
    ensures GoodCopies(m, CopyModules(m, root, cps, onCompile), cps)
  {
    hide Key, CopyModule, IDs, GoodClasspath, Named, ColonFree, GoodCopy, Held;
    if cps != [] {
      var less, last := cps[..|cps| - 1], cps[|cps| - 1];
      CopiesAreGood(m, root, less, onCompile);
      var before := CopyModules(m, root, less, onCompile);
      MoreNames(m, before, less, cps);
      var held := Held([m] + before);
      HeldFirst(m, before);
      FirstID(m.nodes);
      var c := CopyModule(m, root, last, onCompile, held);
      CopyIsGood(m, root, last, onCompile, held, cps);
      if |c.nodes| != 1 {
        NamesFresh(m, root, cps, onCompile, before, c);
      }
    }
  }

  lemma NamesFresh(m: Module, root: Node, cps: seq<Translated>, onCompile: set<string>, before: seq<Module>, c: Module)
    requires cps != [] && NamesAgree(cps) && m.nodes != [] && m.nodes[0] == root
    requires before == CopyModules(m, root, cps[..|cps| - 1], onCompile) && GoodCopies(m, before, cps[..|cps| - 1])
    requires c == CopyModule(m, root, cps[|cps| - 1], onCompile, Held([m] + before)) && |c.nodes| != 1
    ensures forall i :: 0 <= i < |before| ==> before[i].id != c.id
  {
    hide Key, IDs, CopyNodes, Scoped, Held, CopyModules;
    forall i | 0 <= i < |before| ensures before[i].id != c.id {
      assert GoodCopy(m, before[i], cps[..|cps| - 1]);
      FreshName(m, root, cps, onCompile, before[i].id);
    }
  }

  lemma FreshName(m: Module, root: Node, cps: seq<Translated>, onCompile: set<string>, id: string)
    requires cps != [] && NamesAgree(cps) && m.nodes != [] && m.nodes[0] == root
    requires var less := cps[..|cps| - 1]; exists d :: 0 <= d < |less| && id == m.id + "#" + less[d].name
    requires var before := CopyModules(m, root, cps[..|cps| - 1], onCompile);
             |CopyModule(m, root, cps[|cps| - 1], onCompile, Held([m] + before)).nodes| != 1
    ensures id != m.id + "#" + cps[|cps| - 1].name
  {
    hide Key, IDs, CopyNodes, Scoped, Held, CopyModule;
    var less, last := cps[..|cps| - 1], cps[|cps| - 1];
    var d :| 0 <= d < |less| && id == m.id + "#" + less[d].name;
    assert less[d] == cps[d];
    if id == m.id + "#" + last.name {
      SameName(m, less[d].name, last.name);
      RepeatedNameIsEmpty(m, root, cps, onCompile, d);
    }
  }

  lemma NamedIsValid(n: Node)
    requires Named(n)
    ensures NamedByCoordinates(n)
  {
  }

  /**
   What gradleModule returns passes Validate's node, edge and classpath-copy checks, and ingest's
   one-node-per-key check.
   */
  lemma FoldValidates(m: Module, root: Node, cps: seq<Translated>, onCompile: set<string>)
    requires GoodProject(root, cps) && NamesAgree(cps) && OneVersionPerKey(cps)
    requires IsFold(m, root, cps, onCompile) && m.id != "" && m.copyOf == ""
    ensures var ms := [m] + CopyModules(m, root, cps, onCompile);
            ValidModules(ms) && forall i :: 0 <= i < |ms| ==> OneNodePerKey(ms[i].nodes)
  {
    hide Key, FirstPerKey, AllNodes, CopyModules, NodeID, Named, ColonFree, GoodProject;
    FoldNodes(m, root, cps, onCompile);
    FoldWellNamed(m, root, cps, onCompile);
    FoldedEdgesAreHeld(m, root, cps, onCompile);
    CopiesAreGood(m, root, cps, onCompile);
    assert m.nodes[0].id == m.root;
    assert forall i :: 0 <= i < |m.edges| ==> m.edges[i] in m.edges;
    AllValid(m, CopyModules(m, root, cps, onCompile), cps);
  }

  lemma AllValid(m: Module, copies: seq<Module>, cps: seq<Translated>)
    requires GoodCopies(m, copies, cps) && m.id != "" && m.copyOf == ""
    requires WellNamed(m.nodes) && UniqueIDs(m.nodes) && OneNodePerKey(m.nodes) && Holds(m.nodes, m.root)
    requires forall i :: 0 <= i < |m.edges| ==> Holds(m.nodes, m.edges[i].from) && Holds(m.nodes, m.edges[i].to)
    ensures var ms := [m] + copies;
            ValidModules(ms) && forall i :: 0 <= i < |ms| ==> OneNodePerKey(ms[i].nodes)
  {
    hide Key, NamedByCoordinates, Named, ColonFree, Holds, OneNodePerKey, UniqueIDs;
    var ms := [m] + copies;
    forall i | 0 <= i < |ms| ensures ValidModule(ms[i]) && ValidCopy(ms, ms[i]) && OneNodePerKey(ms[i].nodes) {
      assert i > 0 ==> ms[i] == copies[i - 1] && GoodCopy(m, copies[i - 1], cps);
      forall k | 0 <= k < |ms[i].nodes| ensures NamedByCoordinates(ms[i].nodes[k]) {
        NamedIsValid(ms[i].nodes[k]);
      }
      if i > 0 {
        assert ms[0] == m;
        var d :| 0 <= d < |cps| && ms[i].id == m.id + "#" + cps[d].name;
        assert m.id + "#" <= ms[i].id;
        assert ValidCopy(ms, ms[i]);
      }
    }
    forall i, j | 0 <= i < j < |ms| ensures ms[i].id != ms[j].id {
      assert ms[j] == copies[j - 1] && GoodCopy(m, copies[j - 1], cps);
      var d :| 0 <= d < |cps| && ms[j].id == m.id + "#" + cps[d].name;
      if i > 0 { assert ms[i] == copies[i - 1]; }
    }
  }

  // ----- what a copy is -----

  /** A copy of a classpath: named by it, its nodes the classpath's at its scopes, and its edges exactly the
      classpath's between them and the root. */
  ghost predicate IsCopyOf(m: Module, root: Node, cp: Translated, onCompile: set<string>, c: Module) {
    && c.id == m.id + "#" + cp.name && c.copyOf == m.id && c.path == m.path && c.root == m.root
    && c.unlisted == [] && c.aliases == []
    && |c.nodes| > 1 && c.nodes[0] == root && (forall n :: n in c.nodes[1..] ==> n in Scoped(cp, onCompile))
    && forall e :: e in c.edges <==>
         e in cp.edges && (e.from == m.root || Holds(c.nodes[1..], e.from))
           && (e.to == m.root || Holds(c.nodes[1..], e.to))
  }

  lemma CopyIs(m: Module, root: Node, cp: Translated, onCompile: set<string>, held: set<string>)
    requires |CopyModule(m, root, cp, onCompile, held).nodes| != 1
    ensures IsCopyOf(m, root, cp, onCompile, CopyModule(m, root, cp, onCompile, held))
  {
    hide Key, Scoped, CopyNodes;
    var copies := CopyNodes(Scoped(cp, onCompile), held, Key(root));
    assert ([root] + copies)[1..] == copies;
    assert forall id :: id in IDs(copies) <==> Holds(copies, id);
  }

  /** Every copy is one of some classpath. */
  lemma {:induction false} CopiesAre(m: Module, root: Node, cps: seq<Translated>, onCompile: set<string>, c: Module)
    requires c in CopyModules(m, root, cps, onCompile)
    ensures exists cp :: cp in cps && IsCopyOf(m, root, cp, onCompile, c)
  {
    hide CopyModule, IsCopyOf;
    var less, cp := cps[..|cps| - 1], cps[|cps| - 1];
    var before := CopyModules(m, root, less, onCompile);
    if c in before {
      CopiesAre(m, root, less, onCompile, c);
      assert forall d :: d in less ==> d in cps;
    } else {
      CopyIs(m, root, cp, onCompile, Held([m] + before));
      assert cp in cps;
    }
  }
}
