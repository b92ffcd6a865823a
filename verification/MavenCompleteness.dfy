/** Exactly when flattening a Maven tree loses nothing of it (buildgraph/maven.go). */
module MavenCompleteness {
  import opened GoStrings
  import opened Schema
  import opened MavenTree

  // ----- a tree in preorder -----

  /** t, then everything below it, in the order of the walk. */
  function Preorder(t: Tree): (r: seq<Tree>)
    ensures r != [] && r[0] == t
    decreases t, |t.children| + 1
  {
    [t] + Below(t, 0)
  }

  function Below(t: Tree, i: nat): seq<Tree>
    requires i <= |t.children|
    decreases t, |t.children| - i
  {
    if i == |t.children| then [] else Preorder(t.children[i]) + Below(t, i + 1)
  }

  function IDs(trees: seq<Tree>): set<string> {
    set k | 0 <= k < |trees| :: ID(trees[k])
  }

  /** The first occurrence of the id. */
  function FirstOf(trees: seq<Tree>, id: string): (x: Tree)
    requires id in IDs(trees)
    ensures x in trees && ID(x) == id
  {
    if ID(trees[0]) == id then trees[0] else FirstOf(trees[1..], id)
  }

  lemma IDsAppend(a: seq<Tree>, b: seq<Tree>)
    ensures IDs(a + b) == IDs(a) + IDs(b)
  {
    hide ID;
    var all := a + b;
    forall id | id in IDs(a) + IDs(b) ensures id in IDs(all) {
      if id in IDs(a) {
        var k :| 0 <= k < |a| && ID(a[k]) == id;
        assert ID(all[k]) == id;
      } else {
        var k :| 0 <= k < |b| && ID(b[k]) == id;
        assert ID(all[|a| + k]) == id;
      }
    }
  }

  lemma {:induction false} FirstStays(a: seq<Tree>, b: seq<Tree>, id: string)
    requires id in IDs(a)
    ensures id in IDs(a + b) && FirstOf(a + b, id) == FirstOf(a, id)
  {
    hide ID;
    IDsAppend(a, b);
    if ID(a[0]) != id {
      assert (a + b)[1..] == a[1..] + b;
      FirstStays(a[1..], b, id);
    }
  }

  lemma {:induction false} FirstIsNew(a: seq<Tree>, x: Tree)
    requires ID(x) !in IDs(a)
    ensures ID(x) in IDs(a + [x]) && FirstOf(a + [x], ID(x)) == x
  {
    hide ID;
    IDsAppend(a, [x]);
    assert [x][0] == x;
    if a != [] {
      assert ID(a[0]) in IDs(a);
      assert (a + [x])[1..] == a[1..] + [x];
      FirstIsNew(a[1..], x);
    } else {
      assert a + [x] == [x];
    }
  }

  /** x is below t, from its i-th child on. */
  ghost predicate UnderFrom(x: Tree, t: Tree, i: nat) {
    exists k :: i <= k < |t.children| && Within(x, t.children[k])
  }

  lemma {:induction false} PreorderHolds(t: Tree, x: Tree)
    ensures x in Preorder(t) <==> Within(x, t)
    decreases t, |t.children| + 1
  {
    BelowHolds(t, 0, x);
    assert Preorder(t) == [t] + Below(t, 0);
  }

  lemma {:induction false} BelowHolds(t: Tree, i: nat, x: Tree)
    requires i <= |t.children|
    ensures x in Below(t, i) <==> UnderFrom(x, t, i)
    decreases t, |t.children| - i
  {
    hide Within;
    if i < |t.children| {
      PreorderHolds(t.children[i], x);
      BelowHolds(t, i + 1, x);
    }
  }

  // ----- what has been passed -----

  /** Everything passed has its children passed too, but what is still open. */
  ghost predicate Passed(done: seq<Tree>, open: set<string>) {
    forall f :: f in done ==> ID(f) in open || ChildIDs(f) <= IDs(done)
  }

  lemma ChildrenAreBelow(t: Tree)
    ensures ChildIDs(t) <= IDs(Below(t, 0))
  {
    hide ID, Within;
    forall id | id in ChildIDs(t) ensures id in IDs(Below(t, 0)) {
      var k :| 0 <= k < |t.children| && ID(t.children[k]) == id;
      WithinItself(t.children[k]);
      BelowHolds(t, 0, t.children[k]);
      var j :| 0 <= j < |Below(t, 0)| && Below(t, 0)[j] == t.children[k];
    }
  }

  lemma {:induction false} PreorderIsPassed(t: Tree, f: Tree)
    requires f in Preorder(t)
    ensures ChildIDs(f) <= IDs(Preorder(t))
    decreases t, |t.children| + 1
  {
    hide ID, ChildIDs;
    IDsAppend([t], Below(t, 0));
    if f == t {
      ChildrenAreBelow(t);
    } else {
      BelowIsPassed(t, 0, f);
    }
  }

  lemma {:induction false} BelowIsPassed(t: Tree, i: nat, f: Tree)
    requires i <= |t.children| && f in Below(t, i)
    ensures ChildIDs(f) <= IDs(Below(t, i))
    decreases t, |t.children| - i
  {
    hide ID, ChildIDs;
    IDsAppend(Preorder(t.children[i]), Below(t, i + 1));
    if f in Preorder(t.children[i]) {
      PreorderIsPassed(t.children[i], f);
    } else {
      BelowIsPassed(t, i + 1, f);
    }
  }

  lemma PassedMore(done: seq<Tree>, open: set<string>, c: Tree)
    requires Passed(done, open)
    ensures Passed(done + Preorder(c), open)
  {
    hide ID, ChildIDs, Preorder;
    IDsAppend(done, Preorder(c));
    forall f | f in done + Preorder(c) ensures ID(f) in open || ChildIDs(f) <= IDs(done + Preorder(c)) {
      if f in Preorder(c) { PreorderIsPassed(c, f); }
    }
  }

  /** What w has below it, the first occurrence of its id has too. */
  ghost predicate FedByFirst(trees: seq<Tree>, w: Tree) {
    ID(w) in IDs(trees) ==> ChildIDs(w) <= ChildIDs(FirstOf(trees, ID(w)))
  }

  /** Then a tree whose id has been passed holds no id that has not. */
  lemma {:induction false} SkippedIsCovered(c: Tree, w: Tree, done: seq<Tree>, open: set<string>)
    requires Passed(done, open) && ID(c) in IDs(done) && Within(w, c)
    requires forall x :: Within(x, c) ==> ID(x) !in open && FedByFirst(done, x)
    ensures ID(w) in IDs(done)
    decreases c
  {
    hide ID, ChildIDs, IDs;
    if w != c {
      var i :| 0 <= i < |c.children| && Within(w, c.children[i]);
      WithinItself(c);
      assert ID(c.children[i]) in ChildIDs(c) by { ChildIsListed(c, i); }
      assert FedByFirst(done, c);
      var f := FirstOf(done, ID(c));
      assert f in done && ID(f) == ID(c);
      forall x | Within(x, c.children[i]) ensures ID(x) !in open && FedByFirst(done, x) {
        assert Within(x, c);
      }
      SkippedIsCovered(c.children[i], w, done, open);
    }
  }

  lemma ChildIsListed(c: Tree, i: nat)
    requires i < |c.children|
    ensures ID(c.children[i]) in ChildIDs(c)
  {
  }

  // ----- the walk -----

  /** The walk adds no edge from an id it has seen, but for the one it is at. */
  lemma {:induction false} WalkAdds(t: Tree, i: nat, from: string, st: State)
    requires i <= |t.children| && Descend(t, i, from, st).Some?
    ensures var later := Descend(t, i, from, st).value;
            && st.seen <= later.seen && (forall e :: e in st.edges ==> e in later.edges)
            && (forall e :: e in later.edges ==> e in st.edges || e.from == from || e.from !in st.seen)
    decreases t, |t.children| - i
  {
    hide NodeOf, Clashes;
    if i < |t.children| {
      var c := t.children[i];
      var n := NodeOf(c);
      var noted := Noted(st, from, n);
      if n.id in st.seen {
        WalkAdds(t, i + 1, from, noted);
      } else {
        WalkAdds(c, 0, n.id, Entered(noted, n));
        WalkAdds(t, i + 1, from, Descend(c, 0, n.id, Entered(noted, n)).value);
      }
    }
  }

  /** What st has gathered of the trees passed: their ids, and for each that is not open the edges of its first
      occurrence, and no others. */
  ghost predicate Follows(st: State, done: seq<Tree>, open: set<string>) {
    && st.seen == IDs(done)
    && (forall e :: e in st.edges ==> e.from in IDs(done) && e.to in ChildIDs(FirstOf(done, e.from)))
    && (forall id, c :: id in IDs(done) && id !in open && c in ChildIDs(FirstOf(done, id)) ==> Edge(id, c) in st.edges)
  }

  /** Of the edges, st lacks none from an id that is seen and not open. */
  ghost predicate LacksNone(st: State, open: set<string>, edges: seq<Edge>) {
    forall e :: e in edges ==> e in st.edges || e.from in open || e.from !in st.seen
  }

  /** The edges have all of the tree's. */
  ghost predicate HasAll(edges: seq<Edge>, t: Tree) {
    forall w, c :: Within(w, t) && c in ChildIDs(w) ==> Edge(ID(w), c) in edges
  }

  /** No id of t's descendants is open, and none occurs below itself. */
  ghost predicate Apart(t: Tree, open: set<string>) {
    forall w :: UnderFrom(w, t, 0) ==> ID(w) !in open
  }

  ghost predicate Acyclic(t: Tree) {
    forall x :: Within(x, t) ==> Apart(x, {ID(x)})
  }

  /** Why nothing in t is lost: the trees' first occurrences feed it, or the edges of the end have all of it. */
  ghost predicate Justified(t: Tree, trees: seq<Tree>, later: State, open: set<string>, edges: seq<Edge>) {
    || (forall w :: Within(w, t) ==> FedByFirst(trees, w))
    || (HasAll(edges, t) && LacksNone(later, open, edges))
  }

  lemma UnderChild(t: Tree, i: nat)
    requires i < |t.children|
    ensures forall w :: Within(w, t.children[i]) ==> UnderFrom(w, t, 0) && Within(w, t)
  {
    hide Within;
    forall w | Within(w, t.children[i]) ensures Within(w, t) {
      WithinChild(t, i, w);
    }
  }

  lemma WithinChild(t: Tree, i: nat, w: Tree)
    requires i < |t.children| && Within(w, t.children[i])
    ensures Within(w, t)
  {
  }

  lemma ChildApart(t: Tree, i: nat, open: set<string>)
    requires i < |t.children| && Apart(t, open) && Acyclic(t)
    ensures Acyclic(t.children[i]) && Apart(t.children[i], open + {ID(t.children[i])}) && ID(t.children[i]) !in open
  {
    hide ID, Within;
    var c := t.children[i];
    UnderChild(t, i);
    WithinItself(c);
    assert Apart(c, {ID(c)});
    forall w | UnderFrom(w, c, 0) ensures ID(w) !in open + {ID(c)} {
      var k :| 0 <= k < |c.children| && Within(w, c.children[k]);
      WithinChild(c, k, w);
    }
  }

  /** The justification passes from the end of the walk to any state it came through. */
  lemma LackedBefore(t: Tree, i: nat, st: State, open: set<string>, edges: seq<Edge>)
    requires i <= |t.children| && Descend(t, i, ID(t), st).Some? && ID(t) in open
    requires LacksNone(Descend(t, i, ID(t), st).value, open, edges)
    ensures LacksNone(st, open, edges)
  {
    hide Descend, ID;
    WalkAdds(t, i, ID(t), st);
  }

  /** A tree whose id is seen already is skipped, and covered by what has been passed. */
  lemma SkipIsCovered(c: Tree, st: State, done: seq<Tree>, open: set<string>, trees: seq<Tree>, rest: seq<Tree>,
                      edges: seq<Edge>)
    requires Follows(st, done, open) && Passed(done, open) && ID(c) in st.seen && trees == done + rest
    requires Justified(c, trees, st, open, edges) && forall w :: Within(w, c) ==> ID(w) !in open
    ensures IDs(Preorder(c)) <= IDs(done)
  {
    hide ID, ChildIDs, IDs, Within, Preorder;
    forall w | Within(w, c) ensures FedByFirst(done, w) {
      if ID(w) in IDs(done) {
        FirstStays(done, rest, ID(w));
        forall x | x in ChildIDs(w) ensures x in ChildIDs(FirstOf(done, ID(w))) {
          assert HasAll(edges, c) ==> Edge(ID(w), x) in edges;
          assert !HasAll(edges, c) || !LacksNone(st, open, edges) ==> FedByFirst(trees, w);
        }
      }
    }
    forall id | id in IDs(Preorder(c)) ensures id in IDs(done) {
      var w := HolderOf(Preorder(c), id);
      PreorderHolds(c, w);
      SkippedIsCovered(c, w, done, open);
    }
  }

  lemma HolderOf(trees: seq<Tree>, id: string) returns (w: Tree)
    requires id in IDs(trees)
    ensures w in trees && ID(w) == id
  {
    w := FirstOf(trees, id);
  }

  lemma NotedFollows(t: Tree, i: nat, st: State, done: seq<Tree>, open: set<string>)
    requires i < |t.children| && Follows(st, done, open) && ID(t) in IDs(done) && FirstOf(done, ID(t)) == t
    ensures Follows(Noted(st, ID(t), NodeOf(t.children[i])), done, open)
  {
    hide IDs, FirstOf;
    ChildIsListed(t, i);
  }

  lemma SkippedFollows(st: State, done: seq<Tree>, more: seq<Tree>, open: set<string>)
    requires Follows(st, done, open) && IDs(more) <= IDs(done)
    ensures Follows(st, done + more, open)
  {
    hide ID, IDs, ChildIDs, FirstOf;
    IDsAppend(done, more);
    forall id | id in IDs(done) ensures id in IDs(done + more) && FirstOf(done + more, id) == FirstOf(done, id) {
      FirstStays(done, more, id);
    }
  }

  lemma EnteredFollows(c: Tree, st: State, done: seq<Tree>, open: set<string>)
    requires Follows(st, done, open) && Passed(done, open) && ID(c) !in st.seen
    ensures Follows(Entered(st, NodeOf(c)), done + [c], open + {ID(c)}) && Passed(done + [c], open + {ID(c)})
    ensures ID(c) in IDs(done + [c]) && FirstOf(done + [c], ID(c)) == c
  {
    hide IDs, ChildIDs, FirstOf;
    IDsAppend(done, [c]);
    assert IDs([c]) == {ID(c)} by { OneID(c); }
    FirstIsNew(done, c);
    forall id | id in IDs(done) ensures id in IDs(done + [c]) && FirstOf(done + [c], id) == FirstOf(done, id) {
      FirstStays(done, [c], id);
    }
  }

  lemma OneID(c: Tree)
    ensures IDs([c]) == {ID(c)}
  {
    assert [c][0] == c;
  }

  /** A tree is closed once the walk has all its edges. */
  lemma ClosedFollows(c: Tree, st: State, done: seq<Tree>, open: set<string>)
    requires Follows(st, done, open + {ID(c)}) && ID(c) in IDs(done) && FirstOf(done, ID(c)) == c
    requires forall k :: 0 <= k < |c.children| ==> Edge(ID(c), ID(c.children[k])) in st.edges
    ensures Follows(st, done, open)
  {
    hide IDs, FirstOf;
  }

  /** The walk of t's children from the i-th on passes all of them, as what the tree holds first justifies. */
  lemma {:induction false} WalkFollows(t: Tree, i: nat, st: State, done: seq<Tree>, open: set<string>, rest: seq<Tree>,
                                       trees: seq<Tree>, edges: seq<Edge>)
    requires i <= |t.children| && Descend(t, i, ID(t), st).Some?
    requires Follows(st, done, open) && Passed(done, open) && Apart(t, open) && Acyclic(t)
    requires ID(t) in open && ID(t) in IDs(done) && FirstOf(done, ID(t)) == t
    requires trees == done + Below(t, i) + rest
    requires Justified(t, trees, Descend(t, i, ID(t), st).value, open, edges)
    ensures var later := Descend(t, i, ID(t), st).value;
            && Follows(later, done + Below(t, i), open) && Passed(done + Below(t, i), open)
            && forall k :: i <= k < |t.children| ==> Edge(ID(t), ID(t.children[k])) in later.edges
    decreases t, |t.children| - i, 2
  {
    hide Descend, ID, NodeOf, Follows, Passed, Apart, Acyclic, Justified, FirstOf, IDs, Preorder;
    if i == |t.children| {
      DescendEnds(t, ID(t), st);
      assert done + [] == done;
    } else {
      var next := done + Preorder(t.children[i]);
      assert trees == next + Below(t, i + 1) + rest;
      var mid := Turn(t, i, st, done, open, rest, trees, edges);
      WalkFollows(t, i + 1, mid, next, open, rest, trees, edges);
      WalkAdds(t, i + 1, ID(t), mid);
      assert next + Below(t, i + 1) == done + Below(t, i);
    }
  }

  /** One child: noted, and entered when it is new. */
  lemma {:induction false} Turn(t: Tree, i: nat, st: State, done: seq<Tree>, open: set<string>, rest: seq<Tree>,
                                trees: seq<Tree>, edges: seq<Edge>) returns (mid: State)
    requires i < |t.children| && Descend(t, i, ID(t), st).Some?
    requires Follows(st, done, open) && Passed(done, open) && Apart(t, open) && Acyclic(t)
    requires ID(t) in open && ID(t) in IDs(done) && FirstOf(done, ID(t)) == t
    requires trees == done + Preorder(t.children[i]) + Below(t, i + 1) + rest
    requires Justified(t, trees, Descend(t, i, ID(t), st).value, open, edges)
    ensures Descend(t, i + 1, ID(t), mid) == Descend(t, i, ID(t), st)
    ensures var next := done + Preorder(t.children[i]);
            && Follows(mid, next, open) && Passed(next, open)
            && ID(t) in IDs(next) && FirstOf(next, ID(t)) == t
    ensures Edge(ID(t), ID(t.children[i])) in mid.edges
    decreases t, |t.children| - i, 1
  {
    hide Descend, NodeOf, Clashes, Follows, Passed, Apart, Acyclic, Justified, FirstOf, IDs, Preorder, Below;
    var c := t.children[i];
    var noted := Noted(st, ID(t), NodeOf(c));
    DescendStep(t, i, ID(t), st);
    EdgeNoted(st, ID(t), NodeOf(c));
    NotedFollows(t, i, st, done, open);
    FirstStays(done, Preorder(c), ID(t));
    if ID(c) in st.seen {
      mid := noted;
      SkipStep(t, i, noted, done, open, rest, trees, edges);
    } else {
      mid := Descend(c, 0, ID(c), Entered(noted, NodeOf(c))).value;
      EnterStep(t, i, noted, done, open, rest, trees, edges);
    }
  }

  /** What justifies t justifies each of its children, at the state before the children behind it. */
  lemma ChildJustified(t: Tree, i: nat, st: State, trees: seq<Tree>, open: set<string>, edges: seq<Edge>)
    requires i < |t.children| && Descend(t, i + 1, ID(t), st).Some? && ID(t) in open
    requires Justified(t, trees, Descend(t, i + 1, ID(t), st).value, open, edges)
    ensures Justified(t.children[i], trees, st, open, edges)
    ensures Justified(t.children[i], trees, st, open + {ID(t.children[i])}, edges)
  {
    hide Descend, ID, Within, FedByFirst, ChildIDs;
    UnderChild(t, i);
    if HasAll(edges, t) && LacksNone(Descend(t, i + 1, ID(t), st).value, open, edges) {
      LackedBefore(t, i + 1, st, open, edges);
    }
  }

  lemma SkipStep(t: Tree, i: nat, noted: State, done: seq<Tree>, open: set<string>, rest: seq<Tree>,
                 trees: seq<Tree>, edges: seq<Edge>)
    requires i < |t.children| && Descend(t, i + 1, ID(t), noted).Some? && ID(t) in open
    requires Follows(noted, done, open) && Passed(done, open) && Apart(t, open) && ID(t.children[i]) in noted.seen
    requires trees == done + Preorder(t.children[i]) + Below(t, i + 1) + rest
    requires Justified(t, trees, Descend(t, i + 1, ID(t), noted).value, open, edges)
    ensures Follows(noted, done + Preorder(t.children[i]), open) && Passed(done + Preorder(t.children[i]), open)
  {
    hide Descend, ID, Within, Follows, Passed, Justified, Preorder, Below, IDs;
    var c := t.children[i];
    UnderChild(t, i);
    ChildJustified(t, i, noted, trees, open, edges);
    assert trees == done + (Preorder(c) + Below(t, i + 1) + rest);
    SkipIsCovered(c, noted, done, open, trees, Preorder(c) + Below(t, i + 1) + rest, edges);
    SkippedFollows(noted, done, Preorder(c), open);
    PassedMore(done, open, c);
  }

  lemma {:induction false} EnterStep(t: Tree, i: nat, noted: State, done: seq<Tree>, open: set<string>, rest: seq<Tree>,
                                     trees: seq<Tree>, edges: seq<Edge>)
    requires i < |t.children| && ID(t) in open
    requires Follows(noted, done, open) && Passed(done, open) && Apart(t, open) && Acyclic(t)
    requires var c := t.children[i]; ID(c) !in noted.seen && Descend(c, 0, ID(c), Entered(noted, NodeOf(c))).Some?
    requires trees == done + Preorder(t.children[i]) + Below(t, i + 1) + rest
    requires var c := t.children[i];
             var after := Descend(c, 0, ID(c), Entered(noted, NodeOf(c))).value;
             Descend(t, i + 1, ID(t), after).Some?
             && Justified(t, trees, Descend(t, i + 1, ID(t), after).value, open, edges)
    ensures var c := t.children[i];
            var after := Descend(c, 0, ID(c), Entered(noted, NodeOf(c))).value;
            && Follows(after, done + Preorder(c), open) && Passed(done + Preorder(c), open)
            && forall e :: e in noted.edges ==> e in after.edges
    decreases t, |t.children| - i, 0
  {
    hide Descend, ID, Follows, Passed, Apart, Acyclic, Justified, FirstOf, IDs, Below, Within, ChildIDs;
    var c := t.children[i];
    var entered := Entered(noted, NodeOf(c));
    var after := Descend(c, 0, ID(c), entered).value;
    var open' := open + {ID(c)};
    WalkAdds(c, 0, ID(c), entered);
    EnteredFollows(c, noted, done, open);
    ChildApart(t, i, open);
    ChildJustified(t, i, after, trees, open, edges);
    var rest' := Below(t, i + 1) + rest;
    assert trees == (done + [c]) + Below(c, 0) + rest';
    WalkFollows(c, 0, entered, done + [c], open', rest', trees, edges);
    assert (done + [c]) + Below(c, 0) == done + Preorder(c);
    FirstStays(done + [c], Below(c, 0), ID(c));
    ClosedFollows(c, after, done + Preorder(c), open);
    PassedMore(done, open, c);
  }

  // ----- exactly when nothing is lost -----

  /**
   Of a tree in which no id occurs below itself nothing is lost, neither an id nor an edge, exactly when every
   occurrence of an id has no children but those its first occurrence in preorder has.
   */
  lemma NothingIsLostExactly(t: Tree)
    requires Flatten(t).Some? && Acyclic(t)
    ensures (forall x :: Within(x, t) ==> Holds(Flatten(t).value.nodes, ID(x)) && Recorded(Flatten(t).value, x))
            <==>
            (forall x :: Within(x, t) ==> FedByFirst(Preorder(t), x))
  {
    hide Holds, Recorded, Within, Preorder, FedByFirst, ID, IDs, ChildIDs, Acyclic;
    var st := Flatten(t).value;
    if forall x :: Within(x, t) ==> FedByFirst(Preorder(t), x) {
      FlattenFollows(t);
      forall x | Within(x, t) ensures Holds(st.nodes, ID(x)) && Recorded(st, x) {
        FedIsRecorded(t, x);
      }
    }
    if forall x :: Within(x, t) ==> Holds(st.nodes, ID(x)) && Recorded(st, x) {
      RecordedHasAll(t, st);
      FlattenFollows(t);
      forall x | Within(x, t) ensures FedByFirst(Preorder(t), x) {
        RecordedIsFed(t, x, st);
      }
    }
  }

  lemma FlattenFollows(t: Tree)
    requires Flatten(t).Some? && Acyclic(t)
    requires (forall x :: Within(x, t) ==> FedByFirst(Preorder(t), x)) || HasAll(Flatten(t).value.edges, t)
    ensures Follows(Flatten(t).value, Preorder(t), {})
  {
    hide ID, Within, IDs, Below, ChildIDs, FedByFirst, HasAll, FirstOf;
    var st, open := Start(NodeOf(t)), {ID(t)};
    WithinItself(t);
    StartFollows(t);
    assert Apart(t, open);
    assert [t] + Below(t, 0) + [] == Preorder(t) && [t] + Below(t, 0) == Preorder(t);
    var later := Flatten(t).value;
    assert LacksNone(later, open, later.edges);
    WalkFollows(t, 0, st, [t], open, [], Preorder(t), later.edges);
    FirstStays([t], Below(t, 0), ID(t));
    assert {} + {ID(t)} == open;
    ClosedFollows(t, later, Preorder(t), {});
  }

  lemma StartFollows(t: Tree)
    ensures Follows(Start(NodeOf(t)), [t], {ID(t)}) && Passed([t], {ID(t)})
    ensures ID(t) in IDs([t]) && FirstOf([t], ID(t)) == t
  {
    hide NodeOf, ChildIDs;
    OneID(t);
  }

  lemma RecordedHasAll(t: Tree, st: State)
    requires forall x :: Within(x, t) ==> Recorded(st, x)
    ensures HasAll(st.edges, t)
  {
    hide ID, Within;
    forall w, c | Within(w, t) && c in ChildIDs(w) ensures Edge(ID(w), c) in st.edges {
      var k :| 0 <= k < |w.children| && ID(w.children[k]) == c;
      assert Recorded(st, w);
    }
  }

  lemma InPreorder(t: Tree, x: Tree)
    requires Within(x, t)
    ensures ID(x) in IDs(Preorder(t))
  {
    hide ID, Within, Preorder;
    PreorderHolds(t, x);
    var k :| 0 <= k < |Preorder(t)| && Preorder(t)[k] == x;
  }

  lemma FedIsRecorded(t: Tree, x: Tree)
    requires Flatten(t).Some? && Within(x, t) && FedByFirst(Preorder(t), x)
    requires Follows(Flatten(t).value, Preorder(t), {})
    ensures Holds(Flatten(t).value.nodes, ID(x)) && Recorded(Flatten(t).value, x)
  {
    hide Descend, ID, IDs, Preorder, FirstOf, Holds, Walked, ChildIDs;
    var st := Flatten(t).value;
    EverySeenIsWalked(t);
    InPreorder(t, x);
    forall k | 0 <= k < |x.children|
      ensures ID(x.children[k]) in st.seen && Edge(ID(x), ID(x.children[k])) in st.edges {
      ChildIsListed(x, k);
      ChildWithin(t, x, k);
      InPreorder(t, x.children[k]);
    }
  }

  lemma RecordedIsFed(t: Tree, x: Tree, st: State)
    requires Within(x, t) && Recorded(st, x) && Follows(st, Preorder(t), {})
    ensures FedByFirst(Preorder(t), x)
  {
    hide ID, IDs, Preorder, FirstOf, Within;
    InPreorder(t, x);
    forall c | c in ChildIDs(x) ensures c in ChildIDs(FirstOf(Preorder(t), ID(x))) {
      var k :| 0 <= k < |x.children| && ID(x.children[k]) == c;
      assert Edge(ID(x), c) in st.edges;
    }
  }

  /** Of such a tree the module has one node of each coordinate exactly when nothing in the tree has the root's
      coordinate at another version. */
  lemma OneVersionExactly(t: Tree)
    requires Flatten(t).Some? && CleanTree(t) && Acyclic(t)
    requires forall x :: Within(x, t) ==> FedByFirst(Preorder(t), x)
    ensures OneNodePerKey(Flatten(t).value.nodes) <==> RootAlone(t)
  {
    hide Holds, Recorded, Within, Preorder, FedByFirst, ID, Acyclic, CleanTree, OneNodePerKey, RootAlone, Descend;
    NothingIsLostExactly(t);
    OneVersionPerCoordinate(t);
    if OneNodePerKey(Flatten(t).value.nodes) {
      RootAloneIsNeeded(t);
    }
  }
}
