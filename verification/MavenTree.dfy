/** mavenModules: the reactor's dependency trees flattened into modules (buildgraph/maven.go). */
module MavenTree {
  import opened GoStrings
  import opened Schema
  import opened EdgePaths

  /** One node of dependency:tree's output. */
  datatype Tree = Tree(group: string, artifact: string, version: string, typ: string, classifier: string, scope: string,
                       children: seq<Tree>)

  function NodeOf(t: Tree): (n: Node)
    ensures Named(n)
  {
    var typ := if t.typ == "" then "jar" else t.typ;
    Node(NodeID(t.group, t.artifact, typ, t.classifier, t.version), t.group, t.artifact, t.version, typ, t.classifier,
         t.scope, None)
  }

  function ID(t: Tree): string {
    NodeOf(t).id
  }

  /** What the walk of one tree has gathered. */
  datatype State = State(nodes: seq<Node>, edges: seq<Edge>, seen: set<string>, versions: map<string, string>)

  /** The coordinate of n is held at another version. */
  predicate Clashes(st: State, n: Node) {
    Key(n) in st.versions && st.versions[Key(n)] != n.version
  }

  function Noted(st: State, from: string, n: Node): State {
    st.(versions := st.versions[Key(n) := n.version], edges := st.edges + [Edge(from, n.id)])
  }

  function Entered(st: State, n: Node): State {
    st.(seen := st.seen + {n.id}, nodes := st.nodes + [n])
  }

  /** The walk of t's children from the i-th on, t's own id being from. */
  function Descend(t: Tree, i: nat, from: string, st: State): Option<State>
    requires i <= |t.children|
    decreases t, |t.children| - i
  {
    if i == |t.children| then Some(st)
    else
      var c := t.children[i];
      var n := NodeOf(c);
      if Clashes(st, n) then None
      else
        var noted := Noted(st, from, n);
        if n.id in st.seen then Descend(t, i + 1, from, noted)
        else match Descend(c, 0, n.id, Entered(noted, n))
          case None => None
          case Some(after) => Descend(t, i + 1, from, after)
  }

  lemma DescendStep(t: Tree, i: nat, from: string, st: State)
    requires i < |t.children|
    ensures var n := NodeOf(t.children[i]);
            var noted := Noted(st, from, n);
            Descend(t, i, from, st) ==
              if Clashes(st, n) then None
              else if n.id in st.seen then Descend(t, i + 1, from, noted)
              else match Descend(t.children[i], 0, n.id, Entered(noted, n))
                case None => None
                case Some(after) => Descend(t, i + 1, from, after)
  {
    hide NodeOf, Noted, Entered, Clashes;
  }

  lemma DescendEnds(t: Tree, from: string, st: State)
    ensures Descend(t, |t.children|, from, st) == Some(st)
  {
  }

  class TreeWalk {
    var nodes: seq<Node>
    var edges: seq<Edge>
    var seen: set<string>
    var versions: map<string, string>

    ghost function Now(): State
      reads this
    {
      State(nodes, edges, seen, versions)
    }

    constructor (root: Node)
      ensures Now() == Start(root)
    {
      nodes, edges, seen, versions := [root], [], {root.id}, map[];
    }

    /** walk: stops at the first coordinate held at two versions. */
    method Down(t: Tree, from: string) returns (ok: bool)
      modifies this
      ensures ok <==> Descend(t, 0, from, old(Now())).Some?
      ensures ok ==> Now() == Descend(t, 0, from, old(Now())).value
      decreases t
    {
      hide Key, NodeOf, Descend;
      for i := 0 to |t.children|
        invariant Descend(t, 0, from, old(Now())) == Descend(t, i, from, Now())
      {
        DescendStep(t, i, from, Now());
        var c := t.children[i];
        var n := NodeOf(c);
        if Key(n) in versions && versions[Key(n)] != n.version {
          return false;
        }
        versions := versions[Key(n) := n.version];
        edges := edges + [Edge(from, n.id)];
        if n.id !in seen {
          seen := seen + {n.id};
          nodes := nodes + [n];
          var deeper := Down(c, n.id);
          if !deeper {
            return false;
          }
        }
      }
      DescendEnds(t, from, Now());
      return true;
    }
  }

  function Start(root: Node): State {
    State([root], [], {root.id}, map[])
  }

  function Flatten(t: Tree): Option<State> {
    Descend(t, 0, ID(t), Start(NodeOf(t)))
  }

  // ----- what the walk keeps -----

  /** Nodes are kept once each, by their ids, and reached from the root; edges join them; every node but the root
      has its coordinate at its version on record. */
  ghost predicate Kept(root: Node, st: State) {
    && st.nodes != [] && st.nodes[0] == root
    && (forall id :: id in st.seen <==> Holds(st.nodes, id))
    && UniqueIDs(st.nodes)
    && (forall i :: 0 <= i < |st.nodes| ==> Named(st.nodes[i]) && Reaches(st.edges, root.id, st.nodes[i].id))
    && (forall i :: 0 <= i < |st.edges| ==> st.edges[i].from in st.seen && st.edges[i].to in st.seen)
    && (forall i :: 0 < i < |st.nodes| ==>
          Key(st.nodes[i]) in st.versions && st.versions[Key(st.nodes[i])] == st.nodes[i].version)
  }

  ghost predicate Extends(st: State, later: State) {
    && st.nodes <= later.nodes && st.edges <= later.edges && st.seen <= later.seen
    && forall k :: k in st.versions ==> k in later.versions && later.versions[k] == st.versions[k]
  }

  lemma StartIsKept(t: Tree)
    ensures Kept(NodeOf(t), Start(NodeOf(t)))
  {
    hide NodeOf;
    ReachesItself([], ID(t));
    assert Start(NodeOf(t)).nodes[0] == NodeOf(t);
  }

  /** A child is noted, and entered when it is new. */
  lemma ChildKeeps(root: Node, st: State, from: string, n: Node)
    requires Kept(root, st) && from in st.seen && !Clashes(st, n) && Named(n)
    ensures Extends(st, Noted(st, from, n)) && Extends(st, Entered(Noted(st, from, n), n))
    ensures n.id in st.seen ==> Kept(root, Noted(st, from, n))
    ensures n.id !in st.seen ==> Kept(root, Entered(Noted(st, from, n), n))
  {
    hide Key, Named, Reaches;
    var noted := Noted(st, from, n);
    var i :| 0 <= i < |st.nodes| && st.nodes[i].id == from;
    assert noted.edges[|st.edges|] == Edge(from, n.id) && st.edges <= noted.edges;
    forall k | 0 <= k < |st.nodes| ensures Reaches(noted.edges, root.id, st.nodes[k].id) {
      ReachesMore(st.edges, noted.edges, root.id, st.nodes[k].id);
    }
    if n.id !in st.seen {
      ReachesNext(noted.edges, root.id, from, n.id);
      var entered := Entered(noted, n);
      assert entered.nodes[|st.nodes|] == n && forall k :: 0 <= k < |st.nodes| ==> entered.nodes[k] == st.nodes[k];
      forall id ensures id in entered.seen <==> Holds(entered.nodes, id) {
        if Holds(st.nodes, id) {
          var k :| 0 <= k < |st.nodes| && st.nodes[k].id == id;
          assert entered.nodes[k].id == id;
        }
      }
    }
  }

  lemma {:induction false} WalkKeeps(root: Node, t: Tree, i: nat, from: string, st: State)
    requires i <= |t.children| && Kept(root, st) && from in st.seen && Descend(t, i, from, st).Some?
    ensures Kept(root, Descend(t, i, from, st).value) && Extends(st, Descend(t, i, from, st).value)
    decreases t, |t.children| - i
  {
    hide Kept, NodeOf, Clashes, Noted, Entered, Named;
    if i < |t.children| {
      var c := t.children[i];
      var n := NodeOf(c);
      var noted := Noted(st, from, n);
      ChildKeeps(root, st, from, n);
      SeenStay(st, from, n);
      if n.id in st.seen {
        WalkKeeps(root, t, i + 1, from, noted);
      } else {
        WalkKeeps(root, c, 0, n.id, Entered(noted, n));
        WalkKeeps(root, t, i + 1, from, Descend(c, 0, n.id, Entered(noted, n)).value);
      }
    }
  }

  lemma SeenStay(st: State, from: string, n: Node)
    ensures Noted(st, from, n).seen == st.seen
    ensures Entered(Noted(st, from, n), n).seen == st.seen + {n.id}
  {
  }

  // ----- what the walk records of the tree -----

  /** x is t or below it. */
  ghost predicate Within(x: Tree, t: Tree)
    decreases t
  {
    x == t || exists i :: 0 <= i < |t.children| && Within(x, t.children[i])
  }

  /** An edge for every child of x, which is seen. */
  ghost predicate Recorded(st: State, x: Tree) {
    forall k :: 0 <= k < |x.children| ==> ID(x.children[k]) in st.seen && Edge(ID(x), ID(x.children[k])) in st.edges
  }

  lemma RecordedStays(st: State, later: State, x: Tree)
    requires Recorded(st, x) && Extends(st, later)
    ensures Recorded(later, x)
  {
    hide ID;
    assert forall e :: e in st.edges ==> e in later.edges;
  }

  /** A tree below t with this id has its children recorded. */
  ghost predicate Walked(st: State, t: Tree, id: string) {
    exists x :: Within(x, t) && ID(x) == id && Recorded(st, x)
  }

  lemma WalkedStays(st: State, later: State, c: Tree, t: Tree, i: nat, id: string)
    requires Walked(st, c, id) && Extends(st, later) && i < |t.children| && t.children[i] == c
    ensures Walked(later, t, id)
  {
    hide ID, Recorded, Extends;
    var x :| Within(x, c) && ID(x) == id && Recorded(st, x);
    RecordedStays(st, later, x);
    assert Within(x, t);
  }

  ghost predicate NewAreWalked(st: State, later: State, t: Tree) {
    forall id :: id in later.seen && id !in st.seen ==> Walked(later, t, id)
  }

  /** The walk records the children from the i-th on, and leaves every id it sees anew walked. */
  lemma {:induction false} WalkRecords(root: Node, t: Tree, i: nat, st: State)
    requires i <= |t.children| && Kept(root, st) && ID(t) in st.seen && Descend(t, i, ID(t), st).Some?
    ensures var later := Descend(t, i, ID(t), st).value;
            && (forall k :: i <= k < |t.children| ==>
                 ID(t.children[k]) in later.seen && Edge(ID(t), ID(t.children[k])) in later.edges)
            && NewAreWalked(st, later, t)
    decreases t, |t.children| - i
  {
    hide Kept, Clashes, Noted, Entered, Named, NodeOf, Walked;
    if i < |t.children| {
      var c, from := t.children[i], ID(t);
      var n := NodeOf(c);
      var noted, later := Noted(st, from, n), Descend(t, i, from, st).value;
      ChildKeeps(root, st, from, n);
      SeenStay(st, from, n);
      EdgeNoted(st, from, n);
      if n.id in st.seen {
        WalkKeeps(root, t, i + 1, from, noted);
        WalkRecords(root, t, i + 1, noted);
        assert Edge(from, n.id) in later.edges;
      } else {
        var entered := Entered(noted, n);
        WalkKeeps(root, c, 0, n.id, entered);
        WalkRecords(root, c, 0, entered);
        var after := Descend(c, 0, n.id, entered).value;
        WalkKeeps(root, t, i + 1, from, after);
        WalkRecords(root, t, i + 1, after);
        assert Edge(from, n.id) in later.edges;
        ChildWalked(after, c);
        forall id | id in later.seen && id !in st.seen ensures Walked(later, t, id) {
          if id in after.seen {
            assert id == n.id || id !in entered.seen;
            WalkedStays(after, later, c, t, i, id);
          }
        }
      }
    }
  }

  lemma EdgeNoted(st: State, from: string, n: Node)
    ensures Edge(from, n.id) in Noted(st, from, n).edges && Edge(from, n.id) in Entered(Noted(st, from, n), n).edges
  {
    assert Noted(st, from, n).edges[|st.edges|] == Edge(from, n.id);
  }

  lemma ChildWalked(st: State, c: Tree)
    requires forall k :: 0 <= k < |c.children| ==>
             ID(c.children[k]) in st.seen && Edge(ID(c), ID(c.children[k])) in st.edges
    ensures Walked(st, c, ID(c))
  {
    hide ID;
    assert Within(c, c) && Recorded(st, c);
  }

  // ----- the flattened tree -----

  /** The module of a tree: one node an id, valid, and every node reached from the root. */
  lemma FlattenIsSound(t: Tree)
    requires Flatten(t).Some?
    ensures var st := Flatten(t).value;
            && Kept(NodeOf(t), st)
            && (forall n :: n in st.nodes ==> Reaches(st.edges, ID(t), n.id))
            && (forall m: Module :: m.id != "" && m.root == ID(t) && m.nodes == st.nodes && m.edges == st.edges ==>
                 ValidModule(m))
  {
    hide NodeOf;
    StartIsKept(t);
    WalkKeeps(NodeOf(t), t, 0, ID(t), Start(NodeOf(t)));
    var st := Flatten(t).value;
    assert Holds(st.nodes, st.nodes[0].id);
    forall i | 0 <= i < |st.nodes| ensures NamedByCoordinates(st.nodes[i]) {
      NamedIsNamed(st.nodes[i]);
    }
  }

  lemma NamedIsNamed(n: Node)
    requires Named(n)
    ensures NamedByCoordinates(n)
  {
    assert |n.id| > 0;
  }

  function ChildIDs(x: Tree): (ids: set<string>)
    ensures forall k :: 0 <= k < |x.children| ==> ID(x.children[k]) in ids
  {
    set k | 0 <= k < |x.children| :: ID(x.children[k])
  }

  /** Trees of one id have children of the same ids, as every occurrence of a module resolves alike. */
  ghost predicate Consistent(t: Tree) {
    forall x, y :: Within(x, t) && Within(y, t) && ID(x) == ID(y) ==> ChildIDs(x) == ChildIDs(y)
  }

  /** Nothing of a consistent tree is lost: every id in it is kept, with an edge to each of its children. */
  lemma FlattenIsComplete(t: Tree, x: Tree)
    requires Flatten(t).Some? && Consistent(t) && Within(x, t)
    ensures Holds(Flatten(t).value.nodes, ID(x)) && Recorded(Flatten(t).value, x)
  {
    hide NodeOf, Recorded, Within, Consistent, Walked, Descend, Kept;
    var st := Flatten(t).value;
    EverySeenIsWalked(t);
    WithinItself(t);
    EveryTreeRecorded(t, t, x, st);
  }

  lemma EverySeenIsWalked(t: Tree)
    requires Flatten(t).Some?
    ensures ID(t) in Flatten(t).value.seen
    ensures forall id :: id in Flatten(t).value.seen ==>
            Walked(Flatten(t).value, t, id) && Holds(Flatten(t).value.nodes, id)
  {
    hide NodeOf, Walked, Descend, Named;
    var st := Flatten(t).value;
    StartIsKept(t);
    WalkKeeps(NodeOf(t), t, 0, ID(t), Start(NodeOf(t)));
    WalkRecords(NodeOf(t), t, 0, Start(NodeOf(t)));
    ChildWalked(st, t);
    assert Start(NodeOf(t)).seen == {ID(t)};
  }

  lemma WithinItself(t: Tree)
    ensures Within(t, t)
  {
  }

  lemma {:induction false} EveryTreeRecorded(t: Tree, y: Tree, x: Tree, st: State)
    requires Consistent(t) && Within(y, t) && Within(x, y) && ID(y) in st.seen
    requires forall id :: id in st.seen ==> Walked(st, t, id)
    ensures ID(x) in st.seen && Recorded(st, x)
    decreases y
  {
    hide ID;
    var z :| Within(z, t) && ID(z) == ID(y) && Recorded(st, z);
    assert ChildIDs(z) == ChildIDs(y);
    forall k | 0 <= k < |y.children|
      ensures ID(y.children[k]) in st.seen && Edge(ID(y), ID(y.children[k])) in st.edges
    {
      assert ID(y.children[k]) in ChildIDs(z);
      var j :| 0 <= j < |z.children| && ID(z.children[j]) == ID(y.children[k]);
    }
    if x != y {
      var i :| 0 <= i < |y.children| && Within(x, y.children[i]);
      ChildWithin(t, y, i);
      EveryTreeRecorded(t, y.children[i], x, st);
    }
  }

  lemma {:induction false} ChildWithin(t: Tree, y: Tree, i: nat)
    requires Within(y, t) && i < |y.children|
    ensures Within(y.children[i], t)
    decreases t
  {
    if y == t {
      assert Within(t.children[i], t.children[i]);
    } else {
      var k :| 0 <= k < |t.children| && Within(y, t.children[k]);
      ChildWithin(t.children[k], y, i);
    }
  }

  // ----- one version of a coordinate -----

  ghost predicate FromTree(t: Tree, nodes: seq<Node>) {
    forall n :: n in nodes ==> exists x :: Within(x, t) && NodeOf(x) == n
  }

  /** Every node the walk keeps is one of the tree's. */
  lemma {:induction false} NodesAreTrees(whole: Tree, t: Tree, i: nat, from: string, st: State)
    requires Within(t, whole) && i <= |t.children| && FromTree(whole, st.nodes) && Descend(t, i, from, st).Some?
    ensures FromTree(whole, Descend(t, i, from, st).value.nodes)
    decreases t, |t.children| - i
  {
    hide NodeOf, Clashes, Within;
    if i < |t.children| {
      var c := t.children[i];
      var n := NodeOf(c);
      var noted := Noted(st, from, n);
      ChildWithin(whole, t, i);
      if n.id in st.seen {
        NodesAreTrees(whole, t, i + 1, from, noted);
      } else {
        NodesAreTrees(whole, c, 0, n.id, Entered(noted, n));
        NodesAreTrees(whole, t, i + 1, from, Descend(c, 0, n.id, Entered(noted, n)).value);
      }
    }
  }

  /** Colon-free coordinates throughout. */
  ghost predicate CleanTree(t: Tree) {
    forall x :: Within(x, t) ==> ColonFree(NodeOf(x))
  }

  /** Nothing in the tree has the root's coordinate at another version. */
  ghost predicate RootAlone(t: Tree) {
    forall x :: Within(x, t) && Key(NodeOf(x)) == Key(NodeOf(t)) ==> ID(x) == ID(t)
  }

  lemma FlattenedNodes(t: Tree)
    requires Flatten(t).Some? && CleanTree(t)
    ensures FromTree(t, Flatten(t).value.nodes) && forall n :: n in Flatten(t).value.nodes ==> ColonFree(n)
  {
    hide NodeOf, Within, Descend, ColonFree;
    WithinItself(t);
    NodesAreTrees(t, t, 0, ID(t), Start(NodeOf(t)));
  }

  /**
   Below the root a coordinate has one version. The root's own version is not on record: a module has
   one node per coordinate if nothing in its tree has the root's coordinate at another version, and of
   a consistent tree only then.
   */
  lemma OneVersionPerCoordinate(t: Tree)
    requires Flatten(t).Some? && CleanTree(t)
    ensures var nodes := Flatten(t).value.nodes;
            && (forall i, j :: 0 < i < j < |nodes| ==> Key(nodes[i]) != Key(nodes[j]))
            && (RootAlone(t) ==> OneNodePerKey(nodes))
            && (Consistent(t) ==> (OneNodePerKey(nodes) <==> RootAlone(t)))
  {
    hide Key, Descend, NodeOf, Within, Consistent, RootAlone, OneNodePerKey, ColonFree, Reaches, CleanTree;
    FlattenIsSound(t);
    FlattenedNodes(t);
    var st := Flatten(t).value;
    forall i, j | 0 < i < j < |st.nodes| ensures Key(st.nodes[i]) != Key(st.nodes[j]) {
      if Key(st.nodes[i]) == Key(st.nodes[j]) {
        SameKeyAndVersion(st.nodes[i], st.nodes[j]);
      }
    }
    if RootAlone(t) {
      RootAloneSuffices(t, st.nodes);
    }
    if Consistent(t) && OneNodePerKey(st.nodes) {
      forall x | Within(x, t) ensures Holds(st.nodes, ID(x)) {
        FlattenIsComplete(t, x);
      }
      RootAloneIsNeeded(t);
    }
  }

  lemma RootAloneSuffices(t: Tree, nodes: seq<Node>)
    requires RootAlone(t) && FromTree(t, nodes) && UniqueIDs(nodes) && nodes != [] && nodes[0] == NodeOf(t)
    requires forall i, j :: 0 < i < j < |nodes| ==> Key(nodes[i]) != Key(nodes[j])
    ensures OneNodePerKey(nodes)
  {
    hide Key, NodeOf, Within;
    forall j | 0 < j < |nodes| ensures Key(nodes[0]) != Key(nodes[j]) {
      assert nodes[j] in nodes;
      var x :| Within(x, t) && NodeOf(x) == nodes[j];
    }
  }

  lemma RootAloneIsNeeded(t: Tree)
    requires Flatten(t).Some? && CleanTree(t) && OneNodePerKey(Flatten(t).value.nodes)
    requires forall x :: Within(x, t) ==> Holds(Flatten(t).value.nodes, ID(x))
    ensures RootAlone(t)
  {
    hide Key, NodeOf, Within, Descend, ColonFree, Named, Reaches;
    FlattenIsSound(t);
    FlattenedNodes(t);
    var nodes := Flatten(t).value.nodes;
    forall x | Within(x, t) && Key(NodeOf(x)) == Key(NodeOf(t)) ensures ID(x) == ID(t) {
      assert Holds(nodes, ID(x));
      var j :| 0 <= j < |nodes| && nodes[j].id == ID(x);
      assert nodes[j] in nodes;
      NodeIDIsInjective(nodes[j], NodeOf(x));
    }
  }

  lemma SameKeyAndVersion(a: Node, b: Node)
    requires ColonFree(a) && ColonFree(b) && Named(a) && Named(b) && Key(a) == Key(b) && a.version == b.version
    ensures a.id == b.id
  {
    hide Key, ColonFree;
    KeyIsInjective(a, b);
  }

  /** A coordinate the root has at another version passes: the versions on record do not include the root's. */
  lemma RootVersionIsNotRecorded()
    ensures var t := Tree("g", "a", "1", "jar", "", "", [Tree("g", "a", "2", "jar", "", "compile", [])]);
            && Flatten(t).Some? && |Flatten(t).value.nodes| == 2
            && Key(Flatten(t).value.nodes[0]) == Key(Flatten(t).value.nodes[1])
            && Flatten(t).value.nodes[0].version != Flatten(t).value.nodes[1].version
  {
    hide Key;
    var c := Tree("g", "a", "2", "jar", "", "compile", []);
    var t := Tree("g", "a", "1", "jar", "", "", [c]);
    var n, r := NodeOf(c), NodeOf(t);
    assert n.id != r.id by {
      assert n.id[|n.id| - 1] == '2' && r.id[|r.id| - 1] == '1';
    }
    SameKey(n, r);
    var entered := Entered(Noted(Start(r), r.id, n), n);
    assert Descend(c, 0, n.id, entered) == Some(entered);
    assert Descend(t, 1, r.id, entered) == Some(entered);
    assert Flatten(t) == Some(entered);
  }

  /** A later occurrence keeps no children of its own: of r over x and an x over y, y is lost. */
  lemma LaterChildrenAreLost(r: Tree, x: Tree, y: Tree)
    requires r.children == [x.(children := []), x.(children := [y])] && ID(x) != ID(r) && ID(y) != ID(x)
             && ID(y) != ID(r)
    ensures Flatten(r).Some? && !Holds(Flatten(r).value.nodes, ID(y)) && !Consistent(r)
  {
    hide Key, NodeID;
    var first, later := r.children[0], r.children[1];
    var n, root := NodeOf(first), NodeOf(r);
    assert NodeOf(later) == n && n.id == ID(x);
    var entered := Entered(Noted(Start(root), root.id, n), n);
    var noted := Noted(entered, root.id, n);
    assert Descend(first, 0, n.id, entered) == Some(entered);
    assert Descend(r, 2, root.id, noted) == Some(noted);
    assert Descend(r, 1, root.id, entered) == Some(noted);
    assert noted.nodes == [root, n];
    assert ID(y) in ChildIDs(later) by { assert later.children[0] == y; }
    assert ChildIDs(first) == {};
    assert Within(first, r) && Within(later, r);
  }

  // ----- one tree a reactor module -----

  datatype Project = Project(key: string, dir: string)

  function TreeKey(t: Tree): string {
    t.group + ":" + t.artifact
  }

  function ModuleOf(p: Project, t: Tree, st: State): Module {
    Module(p.key, "", p.dir, ID(t), st.nodes, st.edges, [], [])
  }

  ghost predicate IsModuleOf(trees: seq<Tree>, p: Project, m: Module) {
    exists k :: 0 <= k < |trees| && trees[k].group + ":" + trees[k].artifact == p.key && Flatten(trees[k]).Some?
      && m.id == p.key && m.path == p.dir && m.root == ID(trees[k])
      && m.nodes == Flatten(trees[k]).value.nodes && m.edges == Flatten(trees[k]).value.edges
      && m.copyOf == "" && m.unlisted == [] && m.aliases == []
  }

  ghost predicate DistinctTrees(trees: seq<Tree>, n: nat)
    requires n <= |trees|
  {
    forall i, j :: 0 <= i < j < n ==> TreeKey(trees[i]) != TreeKey(trees[j])
  }

  /** What makes mavenModules refuse. */
  ghost predicate Refused(reactor: seq<Project>, trees: seq<Tree>, profiled: set<string>) {
    || !DistinctTrees(trees, |trees|) || |trees| != |reactor|
    || exists i :: 0 <= i < |reactor| && Unpaired(trees, reactor[i], profiled)
  }

  ghost predicate Unpaired(trees: seq<Tree>, p: Project, profiled: set<string>) {
    p.key !in profiled || forall k :: 0 <= k < |trees| && TreeKey(trees[k]) == p.key ==> Flatten(trees[k]).None?
  }

  ghost predicate Indexed(byKey: map<string, Tree>, trees: seq<Tree>, n: nat)
    requires n <= |trees|
  {
    && |byKey| == n
    && (forall j :: 0 <= j < n ==> TreeKey(trees[j]) in byKey && byKey[TreeKey(trees[j])] == trees[j])
    && (forall key :: key in byKey ==> exists j :: 0 <= j < n && TreeKey(trees[j]) == key)
  }

  /** The refusals on coordinates: two trees of one group and artifact, a wrong count, or a module that has no
      profiles or none of whose trees flattens. */
  lemma RefusedExactly(reactor: seq<Project>, trees: seq<Tree>, profiled: set<string>)
    requires forall t :: t in trees ==> ':' !in t.group
    ensures Refused(reactor, trees, profiled) <==>
            || (exists i, j :: 0 <= i < j < |trees| &&
                  trees[i].group == trees[j].group && trees[i].artifact == trees[j].artifact)
            || |trees| != |reactor|
            || exists p :: p in reactor && (p.key !in profiled ||
                  forall t :: t in trees && p.key == t.group + ":" + t.artifact ==> Flatten(t).None?)
  {
    hide Flatten;
    forall i, j | 0 <= i < j < |trees|
      ensures TreeKey(trees[i]) == TreeKey(trees[j]) <==>
              trees[i].group == trees[j].group && trees[i].artifact == trees[j].artifact
    {
      KeyReads(trees[i], trees[j]);
    }
    forall p | p in reactor
      ensures Unpaired(trees, p, profiled) <==>
              p.key !in profiled || forall t :: t in trees && p.key == t.group + ":" + t.artifact ==> Flatten(t).None?
    {
      if p.key in profiled && Unpaired(trees, p, profiled) {
        forall t | t in trees && p.key == t.group + ":" + t.artifact ensures Flatten(t).None? {
          var k :| 0 <= k < |trees| && trees[k] == t;
          assert TreeKey(trees[k]) == p.key;
        }
      }
    }
    if Refused(reactor, trees, profiled) && DistinctTrees(trees, |trees|) && |trees| == |reactor| {
      var i :| 0 <= i < |reactor| && Unpaired(trees, reactor[i], profiled);
      assert reactor[i] in reactor;
    }
  }

  lemma KeyReads(a: Tree, b: Tree)
    requires ':' !in a.group && ':' !in b.group
    ensures TreeKey(a) == TreeKey(b) <==> a.group == b.group && a.artifact == b.artifact
  {
    FirstIndex(a.group, ':', a.artifact);
    FirstIndex(b.group, ':', b.artifact);
    assert forall t: Tree :: t.group == TreeKey(t)[..|t.group|] && t.artifact == TreeKey(t)[|t.group| + 1..];
  }

  method IndexTrees(trees: seq<Tree>) returns (r: Option<map<string, Tree>>)
    ensures r.Some? <==> DistinctTrees(trees, |trees|)
    ensures r.Some? ==> Indexed(r.value, trees, |trees|)
  {
    hide TreeKey;
    var byKey: map<string, Tree> := map[];
    for k := 0 to |trees|
      invariant DistinctTrees(trees, k) && Indexed(byKey, trees, k)
    {
      var key := TreeKey(trees[k]);
      if key in byKey {
        return None;
      }
      byKey := byKey[key := trees[k]];
    }
    return Some(byKey);
  }

  method ModuleFor(p: Project, trees: seq<Tree>, byKey: map<string, Tree>, profiled: set<string>)
    returns (r: Option<Module>)
    requires DistinctTrees(trees, |trees|) && Indexed(byKey, trees, |trees|)
    ensures r.None? <==> Unpaired(trees, p, profiled)
    ensures r.Some? ==> IsModuleOf(trees, p, r.value)
  {
    hide Descend, NodeOf;
    if p.key !in byKey || p.key !in profiled {
      return None;
    }
    var t := byKey[p.key];
    ghost var k :| 0 <= k < |trees| && TreeKey(trees[k]) == p.key;
    assert t == trees[k];
    var root := NodeOf(t);
    var walk := new TreeWalk(root);
    var ok := walk.Down(t, root.id);
    if !ok {
      return None;
    }
    return Some(ModuleOf(p, t, State(walk.nodes, walk.edges, walk.seen, walk.versions)));
  }

  /** mavenModules; profiled are the modules with an active-profiles entry. */
  method MavenModules(reactor: seq<Project>, trees: seq<Tree>, profiled: set<string>) returns (r: Option<seq<Module>>)
    ensures r.None? <==> Refused(reactor, trees, profiled)
    ensures r.Some? ==> |r.value| == |reactor| && forall i :: 0 <= i < |reactor| ==>
            IsModuleOf(trees, reactor[i], r.value[i])
  {
    hide TreeKey, IsModuleOf, Unpaired;
    var byKey := IndexTrees(trees);
    if byKey.None? || |byKey.value| != |reactor| {
      return None;
    }
    var modules: seq<Module> := [];
    for i := 0 to |reactor|
      invariant |modules| == i && forall j :: 0 <= j < i ==> IsModuleOf(trees, reactor[j], modules[j])
      invariant forall j :: 0 <= j < i ==> !Unpaired(trees, reactor[j], profiled)
    {
      var m := ModuleFor(reactor[i], trees, byKey.value, profiled);
      if m.None? {
        return None;
      }
      modules := modules + [m.value];
    }
    return Some(modules);
  }

  function TreeKeys(trees: seq<Tree>): seq<string> {
    seq(|trees|, j requires 0 <= j < |trees| => TreeKey(trees[j]))
  }

  function ProjectKeys(reactor: seq<Project>): seq<string> {
    seq(|reactor|, j requires 0 <= j < |reactor| => reactor[j].key)
  }

  /** Of distinct reactor modules every tree is some module's: none is left over. */
  lemma EveryTreeHasAModule(reactor: seq<Project>, trees: seq<Tree>, profiled: set<string>, k: nat) returns (i: nat)
    requires !Refused(reactor, trees, profiled) && k < |trees|
    requires forall a, b :: 0 <= a < b < |reactor| ==> reactor[a].key != reactor[b].key
    ensures i < |reactor| && reactor[i].key == TreeKey(trees[k])
  {
    hide TreeKey, Flatten;
    var inTrees, inReactor := TreeKeys(trees), ProjectKeys(reactor);
    var treeKeys, keys := set x | x in inTrees, set x | x in inReactor;
    KeysCount(inTrees, treeKeys);
    KeysCount(inReactor, keys);
    forall key | key in keys ensures key in treeKeys {
      var j :| 0 <= j < |reactor| && inReactor[j] == key;
      assert !Unpaired(trees, reactor[j], profiled);
      var l :| 0 <= l < |trees| && TreeKey(trees[l]) == reactor[j].key && Flatten(trees[l]).Some?;
      assert inTrees[l] == key;
    }
    SameSize(keys, treeKeys);
    assert inTrees[k] in treeKeys;
    var j :| 0 <= j < |inReactor| && inReactor[j] == inTrees[k];
    i := j;
  }

  lemma {:induction false} KeysCount(s: seq<string>, keys: set<string>)
    requires forall i, j :: 0 <= i < j < |s| ==> s[i] != s[j]
    requires forall k :: k in keys <==> k in s
    ensures |keys| == |s|
    decreases |s|
  {
    if s != [] {
      var last := s[|s| - 1];
      assert s == s[..|s| - 1] + [last];
      KeysCount(s[..|s| - 1], keys - {last});
      assert keys == (keys - {last}) + {last};
    } else {
      assert keys == {};
    }
  }

  lemma {:induction false} SameSize(a: set<string>, b: set<string>)
    requires a <= b && |a| == |b|
    ensures a == b
  {
    if a != {} {
      var x :| x in a;
      SameSize(a - {x}, b - {x});
    }
  }

  // ----- what the nodes say -----

  /** n says what the tree node x does; a type left out is jar. */
  ghost predicate Says(n: Node, x: Tree) {
    && n.group == x.group && n.artifact == x.artifact && n.version == x.version && n.classifier == x.classifier
    && n.scope == x.scope && n.typ == (if x.typ == "" then "jar" else x.typ) && n.file == None
    && n.id == NodeID(x.group, x.artifact, x.typ, x.classifier, x.version)
  }

  /** Every node of a flattened tree says what some node of the tree does, the first what the tree itself does. */
  lemma NodesSayTheTree(t: Tree)
    requires Flatten(t).Some?
    ensures var nodes := Flatten(t).value.nodes;
            nodes != [] && Says(nodes[0], t) && forall n :: n in nodes ==> exists x :: Within(x, t) && Says(n, x)
  {
    hide NodeOf, Within, Descend, Kept, Says;
    FlattenIsSound(t);
    WithinItself(t);
    NodesAreTrees(t, t, 0, ID(t), Start(NodeOf(t)));
    var nodes := Flatten(t).value.nodes;
    assert nodes != [] && nodes[0] == NodeOf(t) by { KeptRoot(NodeOf(t), Flatten(t).value); }
    NodeSays(t);
    forall n | n in nodes ensures exists x :: Within(x, t) && Says(n, x) {
      var x :| Within(x, t) && NodeOf(x) == n;
      NodeSays(x);
    }
  }

  lemma KeptRoot(root: Node, st: State)
    requires Kept(root, st)
    ensures st.nodes != [] && st.nodes[0] == root
  {
  }

  lemma NodeSays(x: Tree)
    ensures Says(NodeOf(x), x)
  {
  }
}
