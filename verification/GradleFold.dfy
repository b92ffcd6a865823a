/**
 Folding one project's separately mediated classpaths into one module and its classpath copies
 (gradleModule and classpathCopies, buildgraph/gradle.go).
 */
module GradleFold {
  import opened GoStrings
  import opened Schema

  const RUNTIME := "runtimeClasspath"
  const COMPILE := "compileClasspath"
  const TEST := "testRuntimeClasspath"

  /** A classpath whose components have become nodes; extra when it is one of the other configurations. */
  datatype Translated = Translated(name: string, extra: bool, nodes: seq<Node>, edges: seq<Edge>)

  function GradleScope(name: string, onCompile: bool): string {
    if name == RUNTIME && onCompile then "compile"
    else if name == RUNTIME then "runtime"
    else if name == COMPILE then "provided"
    else "test"
  }

  function ScopeOf(cp: Translated, onCompile: bool): string {
    if cp.extra then "other" else GradleScope(cp.name, onCompile)
  }

  function Scoped(cp: Translated, onCompile: set<string>): (r: seq<Node>)
    ensures |r| == |cp.nodes|
    ensures forall i :: 0 <= i < |r| ==> r[i] == cp.nodes[i].(scope := ScopeOf(cp, Key(cp.nodes[i]) in onCompile))
  {
    seq(|cp.nodes|, i requires 0 <= i < |cp.nodes| => cp.nodes[i].(scope := ScopeOf(cp, Key(cp.nodes[i]) in onCompile)))
  }

  /** Every node of every classpath, in precedence order, at the scope it would be kept at. */
  function AllNodes(cps: seq<Translated>, onCompile: set<string>): seq<Node> {
    if cps == [] then [] else AllNodes(cps[..|cps| - 1], onCompile) + Scoped(cps[|cps| - 1], onCompile)
  }

  /** The root, then the first node of each other key. */
  function FirstPerKey(root: Node, items: seq<Node>): (r: seq<Node>)
    ensures r != [] && r[0] == root
  {
    if items == [] then [root]
    else
      var before := FirstPerKey(root, items[..|items| - 1]);
      var last := items[|items| - 1];
      if HasKey(before, Key(last)) then before else before + [last]
  }

  function KeyMap(items: seq<Node>): map<string, string> {
    if items == [] then map[] else KeyMap(items[..|items| - 1])[items[|items| - 1].id := Key(items[|items| - 1])]
  }

  function Lookup(m: map<string, string>, k: string): string {
    if k in m then m[k] else ""
  }

  /** An edge moved onto the kept nodes of its ends' coordinates. */
  function Rewired(e: Edge, kept: map<string, string>, keyOf: map<string, string>): Edge {
    Edge(Lookup(kept, Lookup(keyOf, e.from)), Lookup(kept, Lookup(keyOf, e.to)))
  }

  function AllEdges(cps: seq<Translated>): seq<Edge> {
    if cps == [] then [] else AllEdges(cps[..|cps| - 1]) + cps[|cps| - 1].edges
  }

  function RewireAll(edges: seq<Edge>, kept: map<string, string>, keyOf: map<string, string>): (r: seq<Edge>)
    ensures forall e :: e in r ==> e.from != e.to
  {
    if edges == [] then []
    else
      var before := RewireAll(edges[..|edges| - 1], kept, keyOf);
      var e := Rewired(edges[|edges| - 1], kept, keyOf);
      if e.from != e.to && e !in before then before + [e] else before
  }

  /** kept maps exactly the nodes' keys, each to its node's id. */
  ghost predicate KeepsNodes(kept: map<string, string>, nodes: seq<Node>) {
    && (forall key :: key in kept <==> HasKey(nodes, key))
    && (forall i :: 0 <= i < |nodes| ==> kept[Key(nodes[i])] == nodes[i].id)
  }

  lemma KeepNext(kept: map<string, string>, nodes: seq<Node>, n: Node)
    requires KeepsNodes(kept, nodes) && !HasKey(nodes, Key(n))
    ensures KeepsNodes(kept[Key(n) := n.id], nodes + [n])
  {
    hide Key;
    forall key ensures key in kept[Key(n) := n.id] <==> HasKey(nodes + [n], key) {
      if HasKey(nodes, key) {
        var i :| 0 <= i < |nodes| && Key(nodes[i]) == key;
        assert Key((nodes + [n])[i]) == key;
      }
      assert Key((nodes + [n])[|nodes|]) == Key(n);
    }
    forall i | 0 <= i < |nodes + [n]| ensures kept[Key(n) := n.id][Key((nodes + [n])[i])] == (nodes + [n])[i].id {
      assert i < |nodes| ==> HasKey(nodes, Key(nodes[i]));
    }
  }

  /** The loop that keeps each key's first node. */
  method KeepNodes(root: Node, cps: seq<Translated>, onCompile: set<string>)
    returns (kept: map<string, string>, nodes: seq<Node>)
    ensures nodes == FirstPerKey(root, AllNodes(cps, onCompile))
    ensures KeepsNodes(kept, nodes)
  {
    hide Key, HasKey, Scoped, FirstPerKey;
    kept, nodes := map[Key(root) := root.id], [root];
    KeepRoot(root);
    for c := 0 to |cps|
      invariant nodes == FirstPerKey(root, AllNodes(cps[..c], onCompile))
      invariant KeepsNodes(kept, nodes)
    {
      ghost var before, items := AllNodes(cps[..c], onCompile), Scoped(cps[c], onCompile);
      assert before + items[..0] == before;
      for i := 0 to |cps[c].nodes|
        invariant nodes == FirstPerKey(root, before + items[..i])
        invariant KeepsNodes(kept, nodes)
      {
        var n := cps[c].nodes[i].(scope := ScopeOf(cps[c], Key(cps[c].nodes[i]) in onCompile));
        KeyIgnoresScope(cps[c].nodes[i], n.scope);
        FirstPerKeyStep(root, before, items, i);
        if Key(n) !in kept {
          KeepNext(kept, nodes, n);
          kept := kept[Key(n) := n.id];
          nodes := nodes + [n];
        }
      }
      assert items[..|items|] == items;
      assert cps[..c + 1][..c] == cps[..c];
    }
    assert cps[..|cps|] == cps;
  }

  lemma KeepRoot(root: Node)
    ensures FirstPerKey(root, []) == [root] && KeepsNodes(map[Key(root) := root.id], [root])
  {
    assert [root][0] == root;
  }

  lemma KeyIgnoresScope(n: Node, scope: string)
    ensures Key(n.(scope := scope)) == Key(n)
  {
  }

  lemma FirstPerKeyStep(root: Node, before: seq<Node>, items: seq<Node>, i: nat)
    requires i < |items|
    ensures var f := FirstPerKey(root, before + items[..i]);
            FirstPerKey(root, before + items[..i + 1]) == if HasKey(f, Key(items[i])) then f else f + [items[i]]
  {
    hide Key, HasKey;
    var now := before + items[..i + 1];
    assert now[..|now| - 1] == before + items[..i] && now[|now| - 1] == items[i];
  }

  /** The loop that records each id's key, the root's last. */
  method KeysByID(root: Node, cps: seq<Translated>, ghost onCompile: set<string>) returns (keyOf: map<string, string>)
    ensures keyOf == KeyMap(AllNodes(cps, onCompile))[root.id := Key(root)]
  {
    hide Key, Scoped, KeyMap;
    keyOf := map[];
    NoKeys();
    for c := 0 to |cps|
      invariant keyOf == KeyMap(AllNodes(cps[..c], onCompile))
    {
      ghost var before, items := AllNodes(cps[..c], onCompile), Scoped(cps[c], onCompile);
      assert before + items[..0] == before;
      for i := 0 to |cps[c].nodes|
        invariant keyOf == KeyMap(before + items[..i])
      {
        var n := cps[c].nodes[i];
        KeyIgnoresScope(n, items[i].scope);
        KeyMapStep(before, items, i);
        keyOf := keyOf[n.id := Key(n)];
      }
      assert items[..|items|] == items;
      assert cps[..c + 1][..c] == cps[..c];
    }
    assert cps[..|cps|] == cps;
    keyOf := keyOf[root.id := Key(root)];
  }

  lemma NoKeys()
    ensures KeyMap([]) == map[]
  {
  }

  lemma KeyMapStep(before: seq<Node>, items: seq<Node>, i: nat)
    requires i < |items|
    ensures KeyMap(before + items[..i + 1]) == KeyMap(before + items[..i])[items[i].id := Key(items[i])]
  {
    hide Key;
    var now := before + items[..i + 1];
    assert now[..|now| - 1] == before + items[..i] && now[|now| - 1] == items[i];
  }

  /** The loop that joins every classpath's edges onto the kept nodes. */
  method JoinEdges(cps: seq<Translated>, kept: map<string, string>, keyOf: map<string, string>)
    returns (edges: seq<Edge>)
    ensures edges == RewireAll(AllEdges(cps), kept, keyOf)
  {
    hide Rewired, AllEdges, RewireAll;
    edges := [];
    var seen: set<Edge> := {};
    NoEdges(kept, keyOf);
    for c := 0 to |cps|
      invariant edges == RewireAll(AllEdges(cps[..c]), kept, keyOf)
      invariant forall e :: e in seen <==> e in edges
    {
      ghost var before := AllEdges(cps[..c]);
      var es := cps[c].edges;
      assert before + es[..0] == before;
      for i := 0 to |es|
        invariant edges == RewireAll(before + es[..i], kept, keyOf)
        invariant forall e :: e in seen <==> e in edges
      {
        RewireStep(before, es, i, kept, keyOf);
        var k := Rewired(es[i], kept, keyOf);
        if k.from != k.to && k !in seen {
          seen := seen + {k};
          edges := edges + [k];
        }
      }
      assert es[..|es|] == es;
      AllEdgesStep(cps, c);
    }
    assert cps[..|cps|] == cps;
  }

  lemma NoEdges(kept: map<string, string>, keyOf: map<string, string>)
    ensures RewireAll(AllEdges([]), kept, keyOf) == []
  {
  }

  lemma AllEdgesStep(cps: seq<Translated>, c: nat)
    requires c < |cps|
    ensures AllEdges(cps[..c + 1]) == AllEdges(cps[..c]) + cps[c].edges
  {
    assert cps[..c + 1][..c] == cps[..c];
  }

  lemma RewireStep(before: seq<Edge>, es: seq<Edge>, i: nat, kept: map<string, string>, keyOf: map<string, string>)
    requires i < |es|
    ensures var all := RewireAll(before + es[..i], kept, keyOf);
            var k := Rewired(es[i], kept, keyOf);
            RewireAll(before + es[..i + 1], kept, keyOf) == if k.from != k.to && k !in all then all + [k] else all
  {
    hide Rewired;
    var now := before + es[..i + 1];
    assert now[..|now| - 1] == before + es[..i] && now[|now| - 1] == es[i];
  }

  // ----- the folded module -----

  function FoldedEdges(root: Node, cps: seq<Translated>, onCompile: set<string>, kept: map<string, string>): seq<Edge> {
    RewireAll(AllEdges(cps), kept, KeyMap(AllNodes(cps, onCompile))[root.id := Key(root)])
  }

  /** m is the module the fold makes of the classpaths. */
  ghost predicate IsFold(m: Module, root: Node, cps: seq<Translated>, onCompile: set<string>) {
    && m.root == root.id
    && m.nodes == FirstPerKey(root, AllNodes(cps, onCompile))
    && exists kept :: KeepsNodes(kept, m.nodes) && m.edges == FoldedEdges(root, cps, onCompile, kept)
  }

  method Fold(m0: Module, root: Node, cps: seq<Translated>, onCompile: set<string>) returns (m: Module)
    requires m0.root == root.id
    ensures IsFold(m, root, cps, onCompile)
    ensures m == m0.(nodes := m.nodes, edges := m.edges)
  {
    hide AllNodes, AllEdges, RewireAll, KeyMap, FirstPerKey, KeepsNodes, Key;
    var kept, nodes := KeepNodes(root, cps, onCompile);
    var keyOf := KeysByID(root, cps, onCompile);
    var edges := JoinEdges(cps, kept, keyOf);
    m := m0.(nodes := nodes, edges := edges);
  }

  // ----- classpath copies -----

  function IDs(nodes: seq<Node>): set<string> {
    set i | 0 <= i < |nodes| :: nodes[i].id
  }

  /** The nodes of a later classpath no earlier module holds, other versions of the project apart. */
  function CopyNodes(items: seq<Node>, held: set<string>, rootKey: string): (r: seq<Node>)
    ensures forall n :: n in r ==> n in items && n.id !in held && Key(n) != rootKey
  {
    if items == [] then []
    else
      var before := CopyNodes(items[..|items| - 1], held, rootKey);
      var n := items[|items| - 1];
      if n.id in held || n.id in IDs(before) || Key(n) == rootKey then before else before + [n]
  }

  function EdgesWithin(edges: seq<Edge>, ids: set<string>): (r: seq<Edge>)
    ensures forall e :: e in r <==> e in edges && e.from in ids && e.to in ids
  {
    if edges == [] then []
    else
      var e := edges[|edges| - 1];
      var before := EdgesWithin(edges[..|edges| - 1], ids);
      if e.from in ids && e.to in ids then before + [e] else before
  }

  function CopyModule(m: Module, root: Node, cp: Translated, onCompile: set<string>, held: set<string>): Module {
    var copies := CopyNodes(Scoped(cp, onCompile), held, Key(root));
    Module(m.id + "#" + cp.name, m.id, m.path, m.root, [root] + copies, EdgesWithin(cp.edges, IDs(copies) + {m.root}),
           [], [])
  }

  function Held(ms: seq<Module>): set<string> {
    if ms == [] then {} else Held(ms[..|ms| - 1]) + IDs(ms[|ms| - 1].nodes)
  }

  /** The copy modules, in classpath order, each holding what the modules before it do not. */
  function CopyModules(m: Module, root: Node, cps: seq<Translated>, onCompile: set<string>): seq<Module> {
    if cps == [] then []
    else
      var before := CopyModules(m, root, cps[..|cps| - 1], onCompile);
      var c := CopyModule(m, root, cps[|cps| - 1], onCompile, Held([m] + before));
      if |c.nodes| == 1 then before else before + [c]
  }

  lemma HeldAppend(ms: seq<Module>, c: Module)
    ensures Held(ms + [c]) == Held(ms) + IDs(c.nodes)
  {
    assert (ms + [c])[..|ms|] == ms;
  }

  lemma IDsAppend(nodes: seq<Node>, n: Node)
    ensures IDs(nodes + [n]) == IDs(nodes) + {n.id}
  {
    var all := nodes + [n];
    forall x | x in IDs(all) ensures x in IDs(nodes) + {n.id} {
      var i :| 0 <= i < |all| && all[i].id == x;
      assert i < |nodes| ==> nodes[i].id == x;
    }
    forall x | x in IDs(nodes) + {n.id} ensures x in IDs(all) {
      if x != n.id {
        var i :| 0 <= i < |nodes| && nodes[i].id == x;
        assert all[i].id == x;
      } else {
        assert all[|nodes|].id == x;
      }
    }
  }

  /** One pass over a classpath's nodes; held grows as the source's map does. */
  method TakeCopies(cp: Translated, onCompile: set<string>, held: set<string>, rootKey: string)
    returns (copies: seq<Node>, held': set<string>)
    ensures copies == CopyNodes(Scoped(cp, onCompile), held, rootKey)
    ensures held' == held + IDs(copies)
  {
    hide Key, Scoped, IDs, CopyNodes;
    ghost var items := Scoped(cp, onCompile);
    copies, held' := [], held;
    NoIDs();
    NoCopies(held, rootKey);
    for i := 0 to |cp.nodes|
      invariant copies == CopyNodes(items[..i], held, rootKey)
      invariant held' == held + IDs(copies)
    {
      CopiesStep(items, i, held, rootKey);
      var n := cp.nodes[i];
      KeyIgnoresScope(n, items[i].scope);
      if n.id in held' || Key(n) == rootKey {
        continue;
      }
      held' := held' + {n.id};
      n := n.(scope := ScopeOf(cp, Key(n) in onCompile));
      IDsAppend(copies, n);
      copies := copies + [n];
    }
    assert items[..|items|] == items;
  }

  lemma NoCopies(held: set<string>, rootKey: string)
    ensures CopyNodes([], held, rootKey) == []
  {
  }

  lemma CopiesStep(items: seq<Node>, i: nat, held: set<string>, rootKey: string)
    requires i < |items|
    ensures var before, n := CopyNodes(items[..i], held, rootKey), items[i];
            CopyNodes(items[..i + 1], held, rootKey) ==
            if n.id in held || n.id in IDs(before) || Key(n) == rootKey then before else before + [n]
  {
    hide Key, IDs;
    assert items[..i + 1][..i] == items[..i] && items[..i + 1][i] == items[i];
  }

  lemma NoIDs()
    ensures IDs([]) == {}
  {
  }

  method FilterEdges(edges: seq<Edge>, ids: set<string>) returns (r: seq<Edge>)
    ensures r == EdgesWithin(edges, ids)
  {
    r := [];
    for i := 0 to |edges|
      invariant r == EdgesWithin(edges[..i], ids)
    {
      assert edges[..i + 1][..i] == edges[..i];
      if edges[i].from in ids && edges[i].to in ids {
        r := r + [edges[i]];
      }
    }
    assert edges[..|edges|] == edges;
  }

  /** classpathCopies. */
  method ClasspathCopies(m: Module, root: Node, cps: seq<Translated>, onCompile: set<string>) returns (out: seq<Module>)
    requires m.nodes != [] && m.nodes[0] == root && m.root == root.id
    ensures out == CopyModules(m, root, cps, onCompile)
  {
    hide Key, Scoped, CopyNodes, EdgesWithin, IDs;
    var held := HeldIDs(m.nodes);
    out := [];
    assert [m] + [] == [m];
    HeldOne(m);
    for c := 0 to |cps|
      invariant out == CopyModules(m, root, cps[..c], onCompile)
      invariant held == Held([m] + out)
    {
      assert cps[..c + 1][..c] == cps[..c] && cps[..c + 1][c] == cps[c];
      var copies, held' := TakeCopies(cps[c], onCompile, held, Key(root));
      if |copies| == 0 {
        NoIDs();
        assert held' == held;
        continue;
      }
      var within := HeldIDs(copies);
      var edges := FilterEdges(cps[c].edges, within + {m.root});
      var copy := Module(m.id + "#" + cps[c].name, m.id, m.path, m.root, [root] + copies, edges, [], []);
      assert copy == CopyModule(m, root, cps[c], onCompile, held);
      RootHeld(m, root, out, copies, copy);
      out := out + [copy];
      held := held';
    }
    assert cps[..|cps|] == cps;
  }

  lemma HeldOne(m: Module)
    ensures Held([m]) == IDs(m.nodes)
  {
    assert [m][..0] == [];
  }

  lemma RootHeld(m: Module, root: Node, out: seq<Module>, copies: seq<Node>, copy: Module)
    requires m.nodes != [] && m.nodes[0] == root && copy.nodes == [root] + copies
    ensures Held([m] + (out + [copy])) == Held([m] + out) + IDs(copies)
  {
    assert [m] + (out + [copy]) == ([m] + out) + [copy];
    HeldAppend([m] + out, copy);
    IDsPrepend(root, copies);
    HeldFirst(m, out);
    assert m.nodes[0].id in IDs(m.nodes);
  }

  lemma {:induction false} HeldFirst(m: Module, out: seq<Module>)
    ensures IDs(m.nodes) <= Held([m] + out)
  {
    if out == [] {
      assert [m] + out == [m];
      HeldOne(m);
    } else {
      HeldFirst(m, out[..|out| - 1]);
      assert [m] + out == ([m] + out[..|out| - 1]) + [out[|out| - 1]];
      HeldAppend([m] + out[..|out| - 1], out[|out| - 1]);
    }
  }

  lemma IDsPrepend(n: Node, nodes: seq<Node>)
    ensures IDs([n] + nodes) == {n.id} + IDs(nodes)
  {
    var all := [n] + nodes;
    assert forall i :: 0 < i < |all| ==> all[i] == nodes[i - 1];
    assert forall i :: 0 <= i < |nodes| ==> nodes[i] == all[i + 1];
    assert all[0] == n;
  }

  method HeldIDs(nodes: seq<Node>) returns (held: set<string>)
    ensures held == IDs(nodes)
  {
    held := {};
    for i := 0 to |nodes|
      invariant held == IDs(nodes[..i])
    {
      assert nodes[..i + 1] == nodes[..i] + [nodes[i]];
      IDsAppend(nodes[..i], nodes[i]);
      held := held + {nodes[i].id};
    }
    assert nodes[..|nodes|] == nodes;
  }
}
