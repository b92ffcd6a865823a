/** When a tree flattens (buildgraph/maven.go): exactly when no coordinate below its root has two versions. */
module MavenClashes {
  import opened GoStrings
  import opened Schema
  import opened MavenTree

  /** x is below the root of t. */
  ghost predicate Below(x: Tree, t: Tree) {
    exists p :: Within(p, t) && x in p.children
  }

  /** A type left out is jar. */
  predicate SameCoordinate(x: Tree, y: Tree) {
    && x.group == y.group && x.artifact == y.artifact && x.classifier == y.classifier
    && (x.typ == y.typ || (x.typ in {"", "jar"} && y.typ in {"", "jar"}))
  }

  /** No coordinate below the root has two versions. */
  ghost predicate OneVersion(t: Tree) {
    forall x, y :: Below(x, t) && Below(y, t) && SameCoordinate(x, y) ==> x.version == y.version
  }

  lemma KeyIsCoordinate(x: Tree, y: Tree)
    requires ColonFree(NodeOf(x)) && ColonFree(NodeOf(y))
    ensures Key(NodeOf(x)) == Key(NodeOf(y)) <==> SameCoordinate(x, y)
  {
    hide Key, NodeID;
    if Key(NodeOf(x)) == Key(NodeOf(y)) {
      KeyIsInjective(NodeOf(x), NodeOf(y));
    }
    if SameCoordinate(x, y) {
      SameKey(NodeOf(x), NodeOf(y));
    }
  }

  lemma VersionOf(x: Tree)
    ensures NodeOf(x).version == x.version && NodeOf(x).id == ID(x) && Named(NodeOf(x))
  {
  }

  lemma BelowIsWithin(x: Tree, t: Tree)
    requires Below(x, t)
    ensures Within(x, t)
  {
    hide Within;
    var p :| Within(p, t) && x in p.children;
    var k :| 0 <= k < |p.children| && p.children[k] == x;
    ChildWithin(t, p, k);
  }

  // ----- one version suffices -----

  /** What is on record is the version of something below the root. */
  ghost predicate FromBelow(whole: Tree, st: State) {
    forall k :: k in st.versions ==> exists x :: Below(x, whole) && Key(NodeOf(x)) == k && st.versions[k] == x.version
  }

  lemma ChildPasses(whole: Tree, c: Tree, from: string, st: State)
    requires CleanTree(whole) && OneVersion(whole) && FromBelow(whole, st) && Below(c, whole)
    ensures !Clashes(st, NodeOf(c)) && FromBelow(whole, Noted(st, from, NodeOf(c)))
  {
    hide Key, NodeOf, Below, Within, ColonFree, SameCoordinate;
    VersionOf(c);
    BelowIsWithin(c, whole);
    var k := Key(NodeOf(c));
    if k in st.versions {
      var x :| Below(x, whole) && Key(NodeOf(x)) == k && st.versions[k] == x.version;
      BelowIsWithin(x, whole);
      KeyIsCoordinate(x, c);
    }
  }

  lemma {:induction false} WalkPasses(whole: Tree, t: Tree, i: nat, from: string, st: State)
    requires CleanTree(whole) && OneVersion(whole) && FromBelow(whole, st)
    requires Within(t, whole) && i <= |t.children|
    ensures Descend(t, i, from, st).Some? && FromBelow(whole, Descend(t, i, from, st).value)
    decreases t, |t.children| - i
  {
    hide CleanTree, OneVersion, NodeOf, Within, Clashes, Noted;
    if i < |t.children| {
      var c := t.children[i];
      var n := NodeOf(c);
      ChildPasses(whole, c, from, st);
      ChildWithin(whole, t, i);
      var noted := Noted(st, from, n);
      if n.id in noted.seen {
        WalkPasses(whole, t, i + 1, from, noted);
      } else {
        WalkPasses(whole, c, 0, n.id, Entered(noted, n));
        WalkPasses(whole, t, i + 1, from, Descend(c, 0, n.id, Entered(noted, n)).value);
      }
      DescendStep(t, i, from, st);
      NotedSees(st, from, n);
    }
  }

  lemma NotedSees(st: State, from: string, n: Node)
    ensures Noted(st, from, n).seen == st.seen
  {
  }

  // ----- and is needed -----

  ghost predicate OnRecord(st: State, n: Node) {
    Key(n) in st.versions && st.versions[Key(n)] == n.version
  }

  /** The end of every edge has a node below the root whose version is on record. */
  ghost predicate Backed(whole: Tree, st: State) {
    forall e :: e in st.edges ==> exists x :: Below(x, whole) && ID(x) == e.to && OnRecord(st, NodeOf(x))
  }

  lemma ChildBacks(whole: Tree, c: Tree, from: string, st: State)
    requires Backed(whole, st) && Below(c, whole) && !Clashes(st, NodeOf(c))
    ensures Backed(whole, Noted(st, from, NodeOf(c)))
  {
    hide Key, NodeOf, Below;
    var noted := Noted(st, from, NodeOf(c));
    forall e | e in noted.edges ensures exists x :: Below(x, whole) && ID(x) == e.to && OnRecord(noted, NodeOf(x)) {
      if e in st.edges {
        var x :| Below(x, whole) && ID(x) == e.to && OnRecord(st, NodeOf(x));
        assert OnRecord(noted, NodeOf(x));
      } else {
        assert e == Edge(from, ID(c)) && OnRecord(noted, NodeOf(c));
      }
    }
  }

  lemma {:induction false} WalkBacks(whole: Tree, t: Tree, i: nat, from: string, st: State)
    requires Backed(whole, st) && Within(t, whole) && i <= |t.children| && Descend(t, i, from, st).Some?
    ensures Backed(whole, Descend(t, i, from, st).value)
    decreases t, |t.children| - i
  {
    hide NodeOf, Within, Clashes, Noted;
    if i < |t.children| {
      var c := t.children[i];
      var n := NodeOf(c);
      var noted := Noted(st, from, n);
      DescendStep(t, i, from, st);
      ChildBacks(whole, c, from, st);
      ChildWithin(whole, t, i);
      NotedSees(st, from, n);
      if n.id in st.seen {
        WalkBacks(whole, t, i + 1, from, noted);
      } else {
        WalkBacks(whole, c, 0, n.id, Entered(noted, n));
        WalkBacks(whole, t, i + 1, from, Descend(c, 0, n.id, Entered(noted, n)).value);
      }
    }
  }

  lemma BelowIsOnRecord(t: Tree, x: Tree)
    requires Flatten(t).Some? && Consistent(t) && CleanTree(t) && Below(x, t)
    ensures OnRecord(Flatten(t).value, NodeOf(x))
  {
    hide Key, NodeOf, Within, Consistent, Descend, ColonFree;
    WithinItself(t);
    WalkBacks(t, t, 0, ID(t), Start(NodeOf(t)));
    var p :| Within(p, t) && x in p.children;
    FlattenIsComplete(t, p);
    var st := Flatten(t).value;
    var k :| 0 <= k < |p.children| && p.children[k] == x;
    assert Edge(ID(p), ID(p.children[k])) in st.edges;
    var y :| Below(y, t) && ID(y) == ID(x) && OnRecord(st, NodeOf(y));
    BelowIsWithin(x, t);
    BelowIsWithin(y, t);
    VersionOf(x);
    VersionOf(y);
    NodeIDIsInjective(NodeOf(y), NodeOf(x));
    SameKey(NodeOf(y), NodeOf(x));
  }

  /** A tree with one version of each coordinate below its root flattens, and where occurrences of an id have the
      same child ids no other does. */
  lemma FlattensExactly(t: Tree)
    requires CleanTree(t)
    ensures OneVersion(t) ==> Flatten(t).Some?
    ensures Consistent(t) ==> (Flatten(t).Some? <==> OneVersion(t))
  {
    hide Key, NodeOf, Within, Consistent, Descend, ColonFree, Below, SameCoordinate;
    WithinItself(t);
    if OneVersion(t) {
      WalkPasses(t, t, 0, ID(t), Start(NodeOf(t)));
    }
    if Consistent(t) && Flatten(t).Some? {
      forall x, y | Below(x, t) && Below(y, t) && SameCoordinate(x, y) ensures x.version == y.version {
        BelowIsOnRecord(t, x);
        BelowIsOnRecord(t, y);
        BelowIsWithin(x, t);
        BelowIsWithin(y, t);
        KeyIsCoordinate(x, y);
        VersionOf(x);
        VersionOf(y);
      }
    }
  }
}
