/** What the fold of a project's classpaths keeps: coordinates, versions, scopes, edges and reachability. */
module GradleProperties {
  import opened GoStrings
  import opened Schema
  import opened EdgePaths
  import opened GradleFold

  // ----- what a translated classpath is -----

  /** Colon-free coordinates, ids that follow from them and are not repeated, edges between listed nodes. */
  ghost predicate GoodClasspath(root: Node, cp: Translated) {
    && (forall i :: 0 <= i < |cp.nodes| ==> ColonFree(cp.nodes[i]) && Named(cp.nodes[i]) && cp.nodes[i].id != root.id)
    && UniqueIDs(cp.nodes)
    && (forall e :: e in cp.edges ==> Listed(root, cp, e.from) && Listed(root, cp, e.to))
  }

  ghost predicate Listed(root: Node, cp: Translated, id: string) {
    id == root.id || Holds(cp.nodes, id)
  }

  ghost predicate GoodProject(root: Node, cps: seq<Translated>) {
    && ColonFree(root) && Named(root)
    && forall c :: 0 <= c < |cps| ==> GoodClasspath(root, cps[c])
  }

  // ----- one node per coordinate, the first classpath's -----

  /** n is the first node of its key in the first classpath that has the key, at the scope given there. */
  ghost predicate KeptFrom(n: Node, cps: seq<Translated>, onCompile: set<string>, c: nat, i: nat) {
    && c < |cps| && i < |cps[c].nodes| && n == Scoped(cps[c], onCompile)[i]
    && (forall d :: 0 <= d < c ==> !HasKey(cps[d].nodes, Key(n)))
    && (forall j :: 0 <= j < i ==> Key(cps[c].nodes[j]) != Key(n))
  }

  ghost predicate KeptSomewhere(n: Node, cps: seq<Translated>, onCompile: set<string>) {
    exists c: nat, i: nat :: KeptFrom(n, cps, onCompile, c, i)
  }

  /** Every coordinate of every classpath has a node. */
  ghost predicate Covers(nodes: seq<Node>, cps: seq<Translated>) {
    forall c, i :: 0 <= c < |cps| && 0 <= i < |cps[c].nodes| ==> HasKey(nodes, Key(cps[c].nodes[i]))
  }

  ghost predicate FirstAt(items: seq<Node>, n: Node, i: nat) {
    i < |items| && items[i] == n && forall j :: 0 <= j < i ==> Key(items[j]) != Key(n)
  }

  ghost predicate AddedFrom(f: seq<Node>, more: seq<Node>, n: Node) {
    !HasKey(f, Key(n)) && exists i :: FirstAt(more, n, i)
  }

  /** r is f and the first of each key of more that f does not have. */
  ghost predicate Extends(f: seq<Node>, r: seq<Node>, more: seq<Node>) {
    && f <= r
    && (forall k :: |f| <= k < |r| ==> AddedFrom(f, more, r[k]))
    && (forall i :: 0 <= i < |more| ==> HasKey(r, Key(more[i])))
    && (OneNodePerKey(f) ==> OneNodePerKey(r))
  }

  lemma MoreKeys(f: seq<Node>, r: seq<Node>)
    requires f <= r
    ensures forall key :: HasKey(f, key) ==> HasKey(r, key)
  {
    hide Key;
    forall key | HasKey(f, key) ensures HasKey(r, key) {
      var i :| 0 <= i < |f| && Key(f[i]) == key;
      assert Key(r[i]) == key;
    }
  }

  lemma ExtendsStep(f: seq<Node>, q: seq<Node>, r: seq<Node>, less: seq<Node>, last: Node)
    requires Extends(f, q, less) && r == if HasKey(q, Key(last)) then q else q + [last]
    ensures Extends(f, r, less + [last])
  {
    hide Key;
    var more := less + [last];
    MoreKeys(f, q);
    MoreKeys(q, r);
    assert HasKey(r, Key(last)) by { if r != q { assert Key(r[|q|]) == Key(last); } }
    forall k | |f| <= k < |r| ensures AddedFrom(f, more, r[k]) {
      if k < |q| {
        assert AddedFrom(f, less, q[k]);
        var i :| FirstAt(less, q[k], i);
        assert FirstAt(more, r[k], i);
      } else {
        assert forall j :: 0 <= j < |less| ==> HasKey(q, Key(less[j]));
        assert FirstAt(more, r[k], |less|);
      }
    }
    forall i | 0 <= i < |more| ensures HasKey(r, Key(more[i])) {
      if i < |less| { assert HasKey(q, Key(less[i])); }
    }
    if OneNodePerKey(f) && r != q {
      assert forall i :: 0 <= i < |q| ==> HasKey(q, Key(q[i]));
    }
  }

  /** Folding further nodes adds exactly the first of each key not yet there. */
  lemma {:induction false} FoldMore(root: Node, before: seq<Node>, more: seq<Node>)
    ensures Extends(FirstPerKey(root, before), FirstPerKey(root, before + more), more)
  {
    hide Key, HasKey, OneNodePerKey, AddedFrom;
    if more == [] {
      assert before + more == before;
    } else {
      var n := |more| - 1;
      FoldMore(root, before, more[..n]);
      assert more[..n + 1] == more && more[..n] + [more[n]] == more;
      FirstPerKeyStep(root, before, more, n);
      ExtendsStep(FirstPerKey(root, before), FirstPerKey(root, before + more[..n]), FirstPerKey(root, before + more),
                  more[..n], more[n]);
    }
  }

  /** What the folded nodes are: the root, then nodes each kept from its key's first classpath. */
  ghost predicate FoldedNodes(r: seq<Node>, root: Node, cps: seq<Translated>, onCompile: set<string>) {
    && r != [] && r[0] == root && OneNodePerKey(r) && Covers(r, cps)
    && forall k :: 0 < k < |r| ==> Key(r[k]) != Key(root) && KeptSomewhere(r[k], cps, onCompile)
  }

  lemma StillKept(n: Node, cps: seq<Translated>, onCompile: set<string>)
    requires cps != [] && KeptSomewhere(n, cps[..|cps| - 1], onCompile)
    ensures KeptSomewhere(n, cps, onCompile)
  {
    hide Key, Scoped;
    var less := cps[..|cps| - 1];
    var c: nat, i: nat :| KeptFrom(n, less, onCompile, c, i);
    assert forall d :: 0 <= d < |less| ==> less[d] == cps[d];
    assert KeptFrom(n, cps, onCompile, c, i);
  }

  lemma KeptFromLast(f: seq<Node>, n: Node, cps: seq<Translated>, onCompile: set<string>)
    requires cps != [] && Covers(f, cps[..|cps| - 1]) && AddedFrom(f, Scoped(cps[|cps| - 1], onCompile), n)
    ensures KeptSomewhere(n, cps, onCompile)
  {
    hide Key, ScopeOf;
    var less, last, more := cps[..|cps| - 1], cps[|cps| - 1], Scoped(cps[|cps| - 1], onCompile);
    var i :| FirstAt(more, n, i);
    forall j | 0 <= j < |last.nodes| ensures Key(more[j]) == Key(last.nodes[j]) {
      KeyIgnoresScope(last.nodes[j], more[j].scope);
    }
    forall d | 0 <= d < |less| ensures !HasKey(cps[d].nodes, Key(n)) {
      assert less[d] == cps[d];
      assert forall j :: 0 <= j < |less[d].nodes| ==> HasKey(f, Key(less[d].nodes[j]));
    }
    assert KeptFrom(n, cps, onCompile, |less|, i);
  }

  lemma CoversLast(f: seq<Node>, r: seq<Node>, cps: seq<Translated>, onCompile: set<string>)
    requires cps != [] && Covers(f, cps[..|cps| - 1]) && Extends(f, r, Scoped(cps[|cps| - 1], onCompile))
    ensures Covers(r, cps)
  {
    hide Key, ScopeOf;
    var less, last, more := cps[..|cps| - 1], cps[|cps| - 1], Scoped(cps[|cps| - 1], onCompile);
    MoreKeys(f, r);
    forall c, i | 0 <= c < |cps| && 0 <= i < |cps[c].nodes| ensures HasKey(r, Key(cps[c].nodes[i])) {
      if c < |less| {
        assert HasKey(f, Key(less[c].nodes[i]));
      } else {
        KeyIgnoresScope(last.nodes[i], more[i].scope);
        assert HasKey(r, Key(more[i]));
      }
    }
  }

  lemma FoldedStep(f: seq<Node>, r: seq<Node>, root: Node, cps: seq<Translated>, onCompile: set<string>)
    requires cps != []
    requires FoldedNodes(f, root, cps[..|cps| - 1], onCompile) && Extends(f, r, Scoped(cps[|cps| - 1], onCompile))
    ensures FoldedNodes(r, root, cps, onCompile)
  {
    hide Key, Scoped, KeptSomewhere, Covers;
    CoversLast(f, r, cps, onCompile);
    assert HasKey(f, Key(root)) by { assert Key(f[0]) == Key(root); }
    forall k | 0 < k < |r| ensures Key(r[k]) != Key(root) && KeptSomewhere(r[k], cps, onCompile) {
      if k < |f| {
        assert f[k] == r[k];
        StillKept(r[k], cps, onCompile);
      } else {
        assert AddedFrom(f, Scoped(cps[|cps| - 1], onCompile), r[k]);
        KeptFromLast(f, r[k], cps, onCompile);
      }
    }
  }

  /** The folded module holds each coordinate of each classpath once, with the first classpath's version. */
  lemma {:induction false} FirstClasspathWins(root: Node, cps: seq<Translated>, onCompile: set<string>)
    ensures FoldedNodes(FirstPerKey(root, AllNodes(cps, onCompile)), root, cps, onCompile)
  {
    hide Key, Scoped, FirstPerKey, Extends, KeptSomewhere;
    if cps == [] {
      FoldNothing(root);
    } else {
      var less, last := cps[..|cps| - 1], cps[|cps| - 1];
      FirstClasspathWins(root, less, onCompile);
      FoldMore(root, AllNodes(less, onCompile), Scoped(last, onCompile));
      FoldedStep(FirstPerKey(root, AllNodes(less, onCompile)), FirstPerKey(root, AllNodes(cps, onCompile)), root, cps,
                 onCompile);
    }
  }

  lemma FoldNothing(root: Node)
    ensures FirstPerKey(root, []) == [root]
  {
  }

  // ----- scopes -----

  ghost predicate HeldBy(cps: seq<Translated>, name: string, key: string) {
    exists c :: 0 <= c < |cps| && !cps[c].extra && cps[c].name == name && HasKey(cps[c].nodes, key)
  }

  ghost predicate OnClasspath(cps: seq<Translated>, key: string) {
    exists c :: 0 <= c < |cps| && !cps[c].extra && HasKey(cps[c].nodes, key)
  }

  /** The runtime classpath first, the compile classpath after nothing else, extras last. */
  ghost predicate InPrecedence(cps: seq<Translated>) {
    forall c, d :: 0 <= c < d < |cps| ==>
                     && (cps[c].extra ==> cps[d].extra)
                     && (!cps[d].extra && cps[d].name == RUNTIME ==> cps[c].name == RUNTIME)
                     && (!cps[d].extra && cps[d].name == COMPILE ==> cps[c].name == RUNTIME || cps[c].name == COMPILE)
  }

  ghost predicate IsOnCompile(onCompile: set<string>, cps: seq<Translated>) {
    forall key :: key in onCompile <==> HeldBy(cps, COMPILE, key)
  }

  /** The scope by which classpaths hold the coordinate. */
  ghost function ScopeByHolders(cps: seq<Translated>, key: string): string {
    if HeldBy(cps, RUNTIME, key) then (if HeldBy(cps, COMPILE, key) then "compile" else "runtime")
    else if HeldBy(cps, COMPILE, key) then "provided"
    else if OnClasspath(cps, key) then "test"
    else "other"
  }

  /** A kept node's scope is determined exactly by which classpaths hold its coordinate. */
  lemma ScopeIsByHolders(m: Module, root: Node, cps: seq<Translated>, onCompile: set<string>, k: nat)
    requires IsFold(m, root, cps, onCompile) && InPrecedence(cps) && IsOnCompile(onCompile, cps)
    requires 0 < k < |m.nodes|
    ensures m.nodes[k].scope == ScopeByHolders(cps, Key(m.nodes[k]))
  {
    hide Key, FirstPerKey, AllNodes, IsFold;
    FoldNodes(m, root, cps, onCompile);
    var n := m.nodes[k];
    assert KeptSomewhere(n, cps, onCompile);
    var c: nat, i: nat :| KeptFrom(n, cps, onCompile, c, i);
    KeyIgnoresScope(cps[c].nodes[i], n.scope);
    HolderIsFirst(n, cps, onCompile, c, i);
  }

  lemma FoldNodes(m: Module, root: Node, cps: seq<Translated>, onCompile: set<string>)
    requires IsFold(m, root, cps, onCompile)
    ensures m.root == root.id && m.nodes == FirstPerKey(root, AllNodes(cps, onCompile))
    ensures FoldedNodes(m.nodes, root, cps, onCompile)
  {
    hide Key, FirstPerKey, AllNodes, FoldedNodes;
    FirstClasspathWins(root, cps, onCompile);
  }

  lemma HolderIsFirst(n: Node, cps: seq<Translated>, onCompile: set<string>, c: nat, i: nat)
    requires KeptFrom(n, cps, onCompile, c, i) && InPrecedence(cps) && Key(cps[c].nodes[i]) == Key(n)
    ensures HeldBy(cps, RUNTIME, Key(n)) <==> !cps[c].extra && cps[c].name == RUNTIME
    ensures !HeldBy(cps, RUNTIME, Key(n)) ==>
            (HeldBy(cps, COMPILE, Key(n)) <==> !cps[c].extra && cps[c].name == COMPILE)
    ensures OnClasspath(cps, Key(n)) <==> !cps[c].extra
  {
    hide Key, Scoped;
    var key := Key(n);
    assert HasKey(cps[c].nodes, key);
    forall d | 0 <= d < |cps| && HasKey(cps[d].nodes, key) ensures d >= c {
    }
  }

  // ----- edges -----

  /** Nodes of one id have one key. */
  ghost predicate IDsHaveKeys(items: seq<Node>) {
    forall i, j :: 0 <= i < |items| && 0 <= j < |items| && items[i].id == items[j].id ==> Key(items[i]) == Key(items[j])
  }

  ghost predicate Finds(keyOf: map<string, string>, items: seq<Node>) {
    forall i :: 0 <= i < |items| ==> items[i].id in keyOf && keyOf[items[i].id] == Key(items[i])
  }

  lemma {:induction false} KeyMapFinds(items: seq<Node>)
    requires IDsHaveKeys(items)
    ensures Finds(KeyMap(items), items)
  {
    hide Key;
    if items != [] {
      var less, last := items[..|items| - 1], items[|items| - 1];
      assert forall i :: 0 <= i < |less| ==> less[i] == items[i];
      KeyMapFinds(less);
      var keyOf := KeyMap(less)[last.id := Key(last)];
      forall i | 0 <= i < |items| ensures items[i].id in keyOf && keyOf[items[i].id] == Key(items[i]) {
        if i < |less| { assert less[i].id in KeyMap(less) && KeyMap(less)[less[i].id] == Key(less[i]); }
        assert items[i].id == last.id ==> Key(items[i]) == Key(items[|items| - 1]);
      }
      assert KeyMap(items) == keyOf;
    }
  }

  ghost predicate Among(n: Node, cps: seq<Translated>, onCompile: set<string>) {
    exists c, i :: 0 <= c < |cps| && 0 <= i < |cps[c].nodes| && n == Scoped(cps[c], onCompile)[i]
  }

  lemma AmongMore(n: Node, cps: seq<Translated>, onCompile: set<string>)
    requires cps != []
    ensures Among(n, cps, onCompile) <==>
            Among(n, cps[..|cps| - 1], onCompile) || n in Scoped(cps[|cps| - 1], onCompile)
  {
    hide ScopeOf;
    var less, last := cps[..|cps| - 1], cps[|cps| - 1];
    if Among(n, less, onCompile) {
      var c, i :| 0 <= c < |less| && 0 <= i < |less[c].nodes| && n == Scoped(less[c], onCompile)[i];
      assert less[c] == cps[c] && n == Scoped(cps[c], onCompile)[i];
    }
    if n in Scoped(last, onCompile) {
      var i :| 0 <= i < |last.nodes| && n == Scoped(last, onCompile)[i];
      assert n == Scoped(cps[|cps| - 1], onCompile)[i];
    }
    if Among(n, cps, onCompile) {
      var c, i :| 0 <= c < |cps| && 0 <= i < |cps[c].nodes| && n == Scoped(cps[c], onCompile)[i];
      assert c < |less| ==> less[c] == cps[c] && n == Scoped(less[c], onCompile)[i];
    }
  }

  lemma {:induction false} AllNodesFrom(cps: seq<Translated>, onCompile: set<string>)
    ensures forall n :: n in AllNodes(cps, onCompile) <==> Among(n, cps, onCompile)
  {
    hide Scoped, Among;
    if cps == [] {
      assert forall n :: !Among(n, [], onCompile) by { NothingAmong(onCompile); }
    } else {
      AllNodesFrom(cps[..|cps| - 1], onCompile);
      forall n ensures n in AllNodes(cps, onCompile) <==> Among(n, cps, onCompile) {
        AmongMore(n, cps, onCompile);
      }
    }
  }

  lemma NothingAmong(onCompile: set<string>)
    ensures forall n :: !Among(n, [], onCompile)
  {
  }

  lemma ProjectIDsHaveKeys(root: Node, cps: seq<Translated>, onCompile: set<string>)
    requires GoodProject(root, cps)
    ensures IDsHaveKeys(AllNodes(cps, onCompile))
  {
    hide Key, Named, ColonFree, ScopeOf, AllNodes;
    var items := AllNodes(cps, onCompile);
    AllNodesFrom(cps, onCompile);
    forall a, b | 0 <= a < |items| && 0 <= b < |items| && items[a].id == items[b].id
      ensures Key(items[a]) == Key(items[b]) {
      assert Among(items[a], cps, onCompile) && Among(items[b], cps, onCompile);
      var c, i :| 0 <= c < |cps| && 0 <= i < |cps[c].nodes| && items[a] == Scoped(cps[c], onCompile)[i];
      var d, j :| 0 <= d < |cps| && 0 <= j < |cps[d].nodes| && items[b] == Scoped(cps[d], onCompile)[j];
      KeyIgnoresScope(cps[c].nodes[i], items[a].scope);
      KeyIgnoresScope(cps[d].nodes[j], items[b].scope);
      assert GoodClasspath(root, cps[c]) && GoodClasspath(root, cps[d]);
      NodeIDIsInjective(cps[c].nodes[i], cps[d].nodes[j]);
    }
  }

  /** Where an id of some classpath is moved to: the kept node of its coordinate. */
  ghost function Target(m: Module, root: Node, cps: seq<Translated>, onCompile: set<string>, kept: map<string, string>,
                        id: string): string {
    Lookup(kept, Lookup(KeyMap(AllNodes(cps, onCompile))[root.id := Key(root)], id))
  }

  lemma KeyFound(root: Node, cps: seq<Translated>, onCompile: set<string>, c: nat, i: nat)
    requires GoodProject(root, cps) && c < |cps| && i < |cps[c].nodes|
    ensures Lookup(KeyMap(AllNodes(cps, onCompile))[root.id := Key(root)], cps[c].nodes[i].id) == Key(cps[c].nodes[i])
  {
    hide Key, AllNodes, KeyMap, ScopeOf, Named, ColonFree;
    var n, items := cps[c].nodes[i], AllNodes(cps, onCompile);
    ProjectIDsHaveKeys(root, cps, onCompile);
    KeyMapFinds(items);
    AllNodesFrom(cps, onCompile);
    var scoped := Scoped(cps[c], onCompile)[i];
    assert Among(scoped, cps, onCompile);
    var a :| 0 <= a < |items| && items[a] == scoped;
    KeyIgnoresScope(n, scoped.scope);
    assert GoodClasspath(root, cps[c]);
  }

  lemma TargetIsKept(m: Module, root: Node, cps: seq<Translated>, onCompile: set<string>, kept: map<string, string>,
                     c: nat, i: nat)
    requires GoodProject(root, cps) && IsFold(m, root, cps, onCompile) && KeepsNodes(kept, m.nodes)
    requires c < |cps| && i < |cps[c].nodes|
    ensures var t := Target(m, root, cps, onCompile, kept, cps[c].nodes[i].id);
            exists k :: 0 <= k < |m.nodes| && m.nodes[k].id == t && Key(m.nodes[k]) == Key(cps[c].nodes[i])
  {
    hide Key, AllNodes, KeyMap, FirstPerKey, IsFold, GoodProject;
    FoldNodes(m, root, cps, onCompile);
    KeyFound(root, cps, onCompile, c, i);
    assert HasKey(m.nodes, Key(cps[c].nodes[i]));
    var k :| 0 <= k < |m.nodes| && Key(m.nodes[k]) == Key(cps[c].nodes[i]);
    assert kept[Key(m.nodes[k])] == m.nodes[k].id;
  }

  lemma RootTarget(m: Module, root: Node, cps: seq<Translated>, onCompile: set<string>, kept: map<string, string>)
    requires IsFold(m, root, cps, onCompile) && KeepsNodes(kept, m.nodes)
    ensures Target(m, root, cps, onCompile, kept, root.id) == root.id
  {
    hide Key, AllNodes, KeyMap;
    assert m.nodes[0] == root && kept[Key(m.nodes[0])] == m.nodes[0].id;
  }

  /** A node the fold kept is its own target. */
  lemma KeptIsOwnTarget(m: Module, root: Node, cps: seq<Translated>, onCompile: set<string>, kept: map<string, string>,
                        c: nat, i: nat, k: nat)
    requires GoodProject(root, cps) && IsFold(m, root, cps, onCompile) && KeepsNodes(kept, m.nodes)
    requires c < |cps| && i < |cps[c].nodes| && k < |m.nodes| && m.nodes[k] == Scoped(cps[c], onCompile)[i]
    ensures Target(m, root, cps, onCompile, kept, cps[c].nodes[i].id) == m.nodes[k].id
  {
    hide Key, AllNodes, KeyMap, ScopeOf, FirstPerKey, IsFold, Named, ColonFree, Target;
    TargetIsKept(m, root, cps, onCompile, kept, c, i);
    var j :| 0 <= j < |m.nodes| && m.nodes[j].id == Target(m, root, cps, onCompile, kept, cps[c].nodes[i].id)
             && Key(m.nodes[j]) == Key(cps[c].nodes[i]);
    KeyIgnoresScope(cps[c].nodes[i], m.nodes[k].scope);
    FoldNodes(m, root, cps, onCompile);
  }

  lemma {:induction false} RewireAllMembers(edges: seq<Edge>, kept: map<string, string>, keyOf: map<string, string>)
    ensures forall e :: e in edges && Rewired(e, kept, keyOf).from != Rewired(e, kept, keyOf).to ==>
            Rewired(e, kept, keyOf) in RewireAll(edges, kept, keyOf)
    ensures forall r :: r in RewireAll(edges, kept, keyOf) ==> exists e :: e in edges && r == Rewired(e, kept, keyOf)
    ensures forall a, b :: 0 <= a < b < |RewireAll(edges, kept, keyOf)| ==>
            RewireAll(edges, kept, keyOf)[a] != RewireAll(edges, kept, keyOf)[b]
  {
    hide Rewired;
    if edges != [] {
      RewireAllMembers(edges[..|edges| - 1], kept, keyOf);
      assert edges == edges[..|edges| - 1] + [edges[|edges| - 1]];
    }
  }

  lemma {:induction false} AllEdgesMembers(cps: seq<Translated>)
    ensures forall e :: e in AllEdges(cps) <==> exists c :: 0 <= c < |cps| && e in cps[c].edges
  {
    if cps != [] {
      AllEdgesMembers(cps[..|cps| - 1]);
      assert forall e :: e in AllEdges(cps) <==> e in AllEdges(cps[..|cps| - 1]) || e in cps[|cps| - 1].edges;
      assert forall c :: 0 <= c < |cps| - 1 ==> cps[..|cps| - 1][c] == cps[c];
    }
  }

  lemma ListedTarget(m: Module, root: Node, cps: seq<Translated>, onCompile: set<string>, kept: map<string, string>,
                     c: nat, id: string)
    requires GoodProject(root, cps) && IsFold(m, root, cps, onCompile) && KeepsNodes(kept, m.nodes)
    requires c < |cps| && Listed(root, cps[c], id)
    ensures Holds(m.nodes, Target(m, root, cps, onCompile, kept, id))
  {
    hide Key, AllNodes, KeyMap, ScopeOf, FirstPerKey, Target, GoodProject;
    if id == root.id {
      RootTarget(m, root, cps, onCompile, kept);
      assert m.nodes[0].id == root.id;
    } else {
      var i :| 0 <= i < |cps[c].nodes| && cps[c].nodes[i].id == id;
      TargetIsKept(m, root, cps, onCompile, kept, c, i);
    }
  }

  /** The folded module's edges join nodes it holds; none is a loop or repeated. */
  lemma FoldedEdgesAreHeld(m: Module, root: Node, cps: seq<Translated>, onCompile: set<string>)
    requires GoodProject(root, cps) && IsFold(m, root, cps, onCompile)
    ensures forall e :: e in m.edges ==> Holds(m.nodes, e.from) && Holds(m.nodes, e.to) && e.from != e.to
    ensures forall a, b :: 0 <= a < b < |m.edges| ==> m.edges[a] != m.edges[b]
  {
    hide Key, AllNodes, KeyMap, ScopeOf, FirstPerKey, AllEdges, RewireAll, Holds;
    var kept :| KeepsNodes(kept, m.nodes) && m.edges == FoldedEdges(root, cps, onCompile, kept);
    var keyOf := KeyMap(AllNodes(cps, onCompile))[root.id := Key(root)];
    RewireAllMembers(AllEdges(cps), kept, keyOf);
    AllEdgesMembers(cps);
    forall r | r in m.edges ensures Holds(m.nodes, r.from) && Holds(m.nodes, r.to) && r.from != r.to {
      var e :| e in AllEdges(cps) && r == Rewired(e, kept, keyOf);
      var c :| 0 <= c < |cps| && e in cps[c].edges;
      assert GoodClasspath(root, cps[c]);
      ListedTarget(m, root, cps, onCompile, kept, c, e.from);
      ListedTarget(m, root, cps, onCompile, kept, c, e.to);
    }
  }

  // ----- reachability -----

  lemma MovedEdge(m: Module, root: Node, cps: seq<Translated>, onCompile: set<string>, kept: map<string, string>,
                  c: nat, e: Edge)
    requires m.edges == FoldedEdges(root, cps, onCompile, kept) && c < |cps| && e in cps[c].edges
    ensures var from, to := Target(m, root, cps, onCompile, kept, e.from), Target(m, root, cps, onCompile, kept, e.to);
            from == to || Edge(from, to) in m.edges
  {
    hide Key, AllNodes, KeyMap, AllEdges, RewireAll;
    var keyOf := KeyMap(AllNodes(cps, onCompile))[root.id := Key(root)];
    AllEdgesMembers(cps);
    assert e in AllEdges(cps);
    RewireAllMembers(AllEdges(cps), kept, keyOf);
    assert Rewired(e, kept, keyOf) == Edge(Target(m, root, cps, onCompile, kept, e.from),
                                           Target(m, root, cps, onCompile, kept, e.to));
  }

  /** A walk from the root in one classpath, moved onto the kept nodes, still starts at the root. */
  lemma {:induction false} WalkMoves(m: Module, root: Node, cps: seq<Translated>, onCompile: set<string>,
                                     kept: map<string, string>, c: nat, p: seq<string>)
    requires IsFold(m, root, cps, onCompile) && KeepsNodes(kept, m.nodes)
             && m.edges == FoldedEdges(root, cps, onCompile, kept)
    requires c < |cps| && Walk(cps[c].edges, p) && p[0] == root.id
    ensures Reaches(m.edges, root.id, Target(m, root, cps, onCompile, kept, p[|p| - 1]))
  {
    hide Key, AllNodes, KeyMap, AllEdges, RewireAll, FirstPerKey, Target, Reaches, FoldedEdges, IsFold, KeepsNodes;
    if |p| == 1 {
      RootTarget(m, root, cps, onCompile, kept);
      ReachesItself(m.edges, root.id);
    } else {
      var q := p[..|p| - 1];
      WalkMoves(m, root, cps, onCompile, kept, c, q);
      var e := Edge(p[|p| - 2], p[|p| - 1]);
      assert e in cps[c].edges;
      MovedEdge(m, root, cps, onCompile, kept, c, e);
      ReachesNext(m.edges, root.id, Target(m, root, cps, onCompile, kept, e.from),
                  Target(m, root, cps, onCompile, kept, e.to));
    }
  }

  /** When every node of each classpath is reachable from the root in that classpath, every node of the
      folded module is reachable from its root. */
  lemma FoldPreservesReachability(m: Module, root: Node, cps: seq<Translated>, onCompile: set<string>, k: nat)
    requires GoodProject(root, cps) && IsFold(m, root, cps, onCompile) && k < |m.nodes|
    requires forall c, i :: 0 <= c < |cps| && 0 <= i < |cps[c].nodes| ==>
             Reaches(cps[c].edges, root.id, cps[c].nodes[i].id)
    ensures Reaches(m.edges, m.root, m.nodes[k].id)
  {
    hide Key, AllNodes, KeyMap, AllEdges, RewireAll, FirstPerKey, Target, FoldedEdges, ScopeOf, GoodProject;
    if k == 0 {
      ReachesItself(m.edges, root.id);
    } else {
      var kept :| KeepsNodes(kept, m.nodes) && m.edges == FoldedEdges(root, cps, onCompile, kept);
      FoldNodes(m, root, cps, onCompile);
      assert KeptSomewhere(m.nodes[k], cps, onCompile);
      var c: nat, i: nat :| KeptFrom(m.nodes[k], cps, onCompile, c, i);
      var id := cps[c].nodes[i].id;
      assert Reaches(cps[c].edges, root.id, id);
      var p :| WalkFrom(cps[c].edges, p, root.id, id);
      WalkMoves(m, root, cps, onCompile, kept, c, p);
      KeptIsOwnTarget(m, root, cps, onCompile, kept, c, i, k);
    }
  }

  // ----- the folded edges, exactly -----

  /** kept is the id of the folded node of the coordinate that id has in the classpath; the root's is its own. */
  ghost predicate Moves(m: Module, root: Node, cp: Translated, id: string, kept: string) {
    if id == root.id then kept == root.id
    else exists i, k :: 0 <= i < |cp.nodes| && 0 <= k < |m.nodes| && cp.nodes[i].id == id
                        && m.nodes[k].id == kept && Key(m.nodes[k]) == Key(cp.nodes[i])
  }

  /** A classpath's edge between the coordinates of these folded nodes. */
  ghost predicate ComesFrom(m: Module, root: Node, cps: seq<Translated>, e: Edge, c: nat, d: Edge) {
    c < |cps| && d in cps[c].edges && Moves(m, root, cps[c], d.from, e.from) && Moves(m, root, cps[c], d.to, e.to)
  }

  lemma TargetMoves(m: Module, root: Node, cps: seq<Translated>, onCompile: set<string>, kept: map<string, string>,
                    c: nat, id: string, to: string)
    requires GoodProject(root, cps) && IsFold(m, root, cps, onCompile) && KeepsNodes(kept, m.nodes)
    requires c < |cps| && Listed(root, cps[c], id)
    ensures Moves(m, root, cps[c], id, to) <==> to == Target(m, root, cps, onCompile, kept, id)
  {
    hide Key, Target, IsFold, KeepsNodes, GoodClasspath;
    if id == root.id {
      RootTarget(m, root, cps, onCompile, kept);
    } else {
      var i :| 0 <= i < |cps[c].nodes| && cps[c].nodes[i].id == id;
      TargetIsKept(m, root, cps, onCompile, kept, c, i);
      var t := Target(m, root, cps, onCompile, kept, id);
      assert Moves(m, root, cps[c], id, t);
      if Moves(m, root, cps[c], id, to) {
        MovesOnce(m, root, cps[c], kept, id, t, to);
      }
    }
  }

  lemma MovesOnce(m: Module, root: Node, cp: Translated, kept: map<string, string>, id: string, a: string, b: string)
    requires KeepsNodes(kept, m.nodes) && GoodClasspath(root, cp) && id != root.id
    requires Moves(m, root, cp, id, a) && Moves(m, root, cp, id, b)
    ensures a == b
  {
    hide Key, ColonFree, Named;
    var i, k :| 0 <= i < |cp.nodes| && 0 <= k < |m.nodes| && cp.nodes[i].id == id
                && m.nodes[k].id == a && Key(m.nodes[k]) == Key(cp.nodes[i]);
    var j, l :| 0 <= j < |cp.nodes| && 0 <= l < |m.nodes| && cp.nodes[j].id == id
                && m.nodes[l].id == b && Key(m.nodes[l]) == Key(cp.nodes[j]);
    assert i == j;
    assert kept[Key(m.nodes[l])] == b && kept[Key(m.nodes[k])] == a;
  }

  /** The folded edges are exactly the classpaths' edges between coordinates, those that join one to itself apart. */
  lemma FoldedEdgesExactly(m: Module, root: Node, cps: seq<Translated>, onCompile: set<string>, e: Edge)
    requires GoodProject(root, cps) && IsFold(m, root, cps, onCompile)
    ensures e in m.edges <==> e.from != e.to && exists c, d :: ComesFrom(m, root, cps, e, c, d)
  {
    hide Key, AllNodes, KeyMap, ScopeOf, FirstPerKey, AllEdges, RewireAll, Holds, Moves, Target, GoodClasspath;
    var kept :| KeepsNodes(kept, m.nodes) && m.edges == FoldedEdges(root, cps, onCompile, kept);
    if e in m.edges {
      var c, d := EdgeCameFrom(m, root, cps, onCompile, kept, e);
    }
    if e.from != e.to && exists c, d :: ComesFrom(m, root, cps, e, c, d) {
      var c, d :| ComesFrom(m, root, cps, e, c, d);
      EdgeEnds(root, cps, c, d);
      TargetMoves(m, root, cps, onCompile, kept, c, d.from, e.from);
      TargetMoves(m, root, cps, onCompile, kept, c, d.to, e.to);
      MovedEdge(m, root, cps, onCompile, kept, c, d);
    }
  }

  lemma EdgeEnds(root: Node, cps: seq<Translated>, c: nat, d: Edge)
    requires GoodProject(root, cps) && c < |cps| && d in cps[c].edges
    ensures Listed(root, cps[c], d.from) && Listed(root, cps[c], d.to)
  {
    assert GoodClasspath(root, cps[c]);
  }

  lemma EdgeCameFrom(m: Module, root: Node, cps: seq<Translated>, onCompile: set<string>, kept: map<string, string>,
                     e: Edge) returns (c: nat, d: Edge)
    requires GoodProject(root, cps) && IsFold(m, root, cps, onCompile) && KeepsNodes(kept, m.nodes)
    requires m.edges == FoldedEdges(root, cps, onCompile, kept) && e in m.edges
    ensures ComesFrom(m, root, cps, e, c, d) && e.from != e.to
  {
    hide Key, AllNodes, KeyMap, AllEdges, RewireAll, Moves, IsFold, GoodProject;
    var keyOf := KeyMap(AllNodes(cps, onCompile))[root.id := Key(root)];
    RewireAllMembers(AllEdges(cps), kept, keyOf);
    AllEdgesMembers(cps);
    d :| d in AllEdges(cps) && e == Rewired(d, kept, keyOf);
    c :| 0 <= c < |cps| && d in cps[c].edges;
    EdgeEnds(root, cps, c, d);
    TargetMoves(m, root, cps, onCompile, kept, c, d.from, e.from);
    TargetMoves(m, root, cps, onCompile, kept, c, d.to, e.to);
  }
}
