/**
 The backward breadth-first search from a first-party sink to an entry point (firstPartyReachPaths,
 pipeline/stages.go).
 */
module ReachPaths {
  import opened CallGraph
  import opened CallOrder

  datatype ReachPath = ReachPath(sink: Symbol, ingress: Symbol, trace: seq<Symbol>)

  /** Ingresses without a SCIP id are not entry points. */
  predicate IsIngress(ingresses: seq<Symbol>, id: string) {
    id != "" && exists i :: 0 <= i < |ingresses| && ingresses[i].scip == id
  }

  predicate IsEntry(g: Graph, ingresses: seq<Symbol>, id: string) {
    IsIngress(ingresses, id) || IsRoot(g, id)
  }

  /** What id stands for: the root of that name, else the last such ingress, else the last end of an edge. */
  function ResolvedSymbol(g: Graph, ingresses: seq<Symbol>, id: string): Symbol {
    if !IsRoot(g, id) && IsIngress(ingresses, id) then LastNamed(ingresses, id) else SymbolOf(g, id)
  }

  // ----- walks -----

  /** A call chain from walk[0] to sink. */
  ghost predicate WalkTo(g: Graph, walk: seq<string>, sink: string) {
    && walk != [] && walk[|walk| - 1] == sink
    && forall i :: 0 <= i < |walk| - 1 ==> Calls(g, walk[i], walk[i + 1])
  }

  ghost predicate ReachesSink(g: Graph, ingresses: seq<Symbol>, sink: string, walk: seq<string>) {
    WalkTo(g, walk, sink) && IsEntry(g, ingresses, walk[0])
  }

  ghost predicate Distinct(s: seq<string>) {
    forall i, j :: 0 <= i < j < |s| ==> s[i] != s[j]
  }

  /** What the search may return: one path whose trace is a shortest call chain from an entry point. */
  ghost predicate IsShortest(g: Graph, ingresses: seq<Symbol>, sink: string, path: ReachPath, walk: seq<string>) {
    && ReachesSink(g, ingresses, sink, walk)
    && Distinct(walk)
    && (forall other :: ReachesSink(g, ingresses, sink, other) ==> |walk| <= |other|)
    && |path.trace| == |walk|
    && (forall i :: 0 <= i < |walk| ==> path.trace[i] == ResolvedSymbol(g, ingresses, walk[i]))
    && path.sink == ResolvedSymbol(g, ingresses, sink)
    && path.ingress == (if IsIngress(ingresses, walk[0]) then ResolvedSymbol(g, ingresses, walk[0]) else NO_SYMBOL)
  }

  // ----- the search -----

  datatype Node = Node(sym: string, path: seq<string>)

  function Reverse(s: seq<string>): (r: seq<string>)
    ensures |r| == |s|
    ensures forall i :: 0 <= i < |s| ==> r[i] == s[|s| - 1 - i]
  {
    if s == [] then [] else Reverse(s[1..]) + [s[0]]
  }

  /** A queued node's path runs from the sink back to its symbol, through visited nodes only. */
  ghost predicate GoodNode(g: Graph, sink: string, visited: set<string>, dist: map<string, nat>, n: Node) {
    && n.path != [] && n.path[|n.path| - 1] == n.sym
    && WalkTo(g, Reverse(n.path), sink)
    && Distinct(n.path)
    && (forall i :: 0 <= i < |n.path| ==> n.path[i] in visited)
    && n.sym in dist && dist[n.sym] == |n.path|
  }

  /** Everything done with is no entry point, and its callers are visited at most one step further. */
  ghost predicate Closed(g: Graph, ingresses: seq<Symbol>, done: set<string>, visited: set<string>,
                         dist: map<string, nat>) {
    && done <= visited <= dist.Keys
    && (forall x :: x in done ==> !IsEntry(g, ingresses, x))
    && (forall x, c :: x in done && Calls(g, c, x) ==> c in visited && dist[c] <= dist[x] + 1)
  }

  ghost predicate Ordered(queue: seq<Node>) {
    && (forall i, j :: 0 <= i < j < |queue| ==> |queue[i].path| <= |queue[j].path|)
    && (forall i :: 0 <= i < |queue| ==> |queue[i].path| <= |queue[0].path| + 1)
  }

  ghost predicate Searching(g: Graph, ingresses: seq<Symbol>, sink: string, done: set<string>, visited: set<string>,
                            dist: map<string, nat>, queue: seq<Node>) {
    && Closed(g, ingresses, done, visited, dist)
    && sink in visited && dist[sink] == 1
    && (forall i :: 0 <= i < |queue| ==> GoodNode(g, sink, visited, dist, queue[i]))
    && Ordered(queue)
    && (queue != [] ==> forall x :: x in visited ==> dist[x] <= |queue[0].path| + 1)
    && (forall x :: x in visited <==> x in done || exists i :: 0 <= i < |queue| && queue[i].sym == x)
  }

  /** On a chain from an entry point the search has reached the frontier no later than the chain. */
  lemma {:induction false} Frontier(g: Graph, ingresses: seq<Symbol>, sink: string, done: set<string>,
                                    visited: set<string>, dist: map<string, nat>, walk: seq<string>, k: nat)
    returns (x: string)
    requires Closed(g, ingresses, done, visited, dist)
    requires ReachesSink(g, ingresses, sink, walk)
    requires k < |walk| && walk[k] in visited && dist[walk[k]] <= |walk| - k
    ensures x in visited && x !in done && dist[x] <= |walk|
  {
    if walk[k] !in done {
      x := walk[k];
    } else {
      assert Calls(g, walk[k - 1], walk[k]);
      x := Frontier(g, ingresses, sink, done, visited, dist, walk, k - 1);
    }
  }

  /** The head of the queue is no further from the sink than any chain from an entry point is long. */
  lemma HeadIsNearest(g: Graph, ingresses: seq<Symbol>, sink: string, done: set<string>, visited: set<string>,
                      dist: map<string, nat>, queue: seq<Node>, walk: seq<string>)
    requires Searching(g, ingresses, sink, done, visited, dist, queue)
    requires ReachesSink(g, ingresses, sink, walk)
    ensures queue != [] && |queue[0].path| <= |walk|
  {
    hide Calls, IsEntry, GoodNode, Closed;
    var x := Frontier(g, ingresses, sink, done, visited, dist, walk, |walk| - 1);
    var i :| 0 <= i < |queue| && queue[i].sym == x;
    NodeDistance(g, sink, visited, dist, queue[i]);
  }

  lemma NodeDistance(g: Graph, sink: string, visited: set<string>, dist: map<string, nat>, n: Node)
    requires GoodNode(g, sink, visited, dist, n)
    ensures n.path != [] && n.path[|n.path| - 1] == n.sym && n.sym in dist && dist[n.sym] == |n.path|
  {
  }

  /** A node extended to a caller not yet visited. */
  lemma Extend(g: Graph, sink: string, visited: set<string>, dist: map<string, nat>, cur: Node, caller: string)
    requires GoodNode(g, sink, visited, dist, cur) && Calls(g, caller, cur.sym) && caller !in visited
    ensures GoodNode(g, sink, visited + {caller}, dist[caller := |cur.path| + 1], Node(caller, cur.path + [caller]))
  {
    var back, next := Reverse(cur.path), Reverse(cur.path + [caller]);
    assert forall i :: 1 <= i < |next| ==> next[i] == back[i - 1];
    assert next[0] == caller;
    forall i | 0 <= i < |next| - 1 ensures Calls(g, next[i], next[i + 1]) {
      if i > 0 { assert Calls(g, back[i - 1], back[i]); }
    }
  }

  lemma StaysGood(g: Graph, sink: string, visited: set<string>, dist: map<string, nat>, n: Node, caller: string, d: nat)
    requires GoodNode(g, sink, visited, dist, n) && caller !in visited
    ensures GoodNode(g, sink, visited + {caller}, dist[caller := d], n)
  {
    assert n.path[|n.path| - 1] in visited;
  }

  ghost function Universe(g: Graph, sink: string): set<string> {
    {sink} + set i | 0 <= i < |g.edges| :: g.edges[i].caller.scip
  }

  lemma StartSearching(g: Graph, ingresses: seq<Symbol>, sink: string)
    ensures Searching(g, ingresses, sink, {}, {sink}, map[sink := 1], [Node(sink, [sink])])
  {
    assert Reverse([sink]) == [sink];
  }

  /** When the head of the queue is an entry point its path is what the search may return. */
  lemma HeadIsShortest(g: Graph, ingresses: seq<Symbol>, sink: string, done: set<string>, visited: set<string>,
                       dist: map<string, nat>, queue: seq<Node>, path: ReachPath)
    requires queue != [] && Searching(g, ingresses, sink, done, visited, dist, queue)
    requires IsEntry(g, ingresses, queue[0].sym)
    requires |path.trace| == |queue[0].path|
    requires forall i :: 0 <= i < |path.trace| ==>
             path.trace[i] == ResolvedSymbol(g, ingresses, Reverse(queue[0].path)[i])
    requires path.trace != [] ==>
               && path.sink == path.trace[|path.trace| - 1]
               && path.ingress == (if IsIngress(ingresses, queue[0].sym) then path.trace[0] else NO_SYMBOL)
    ensures IsShortest(g, ingresses, sink, path, Reverse(queue[0].path))
  {
    hide IsIngress, IsRoot, Calls, ResolvedSymbol, Closed, Ordered;
    var cur := queue[0];
    assert GoodNode(g, sink, visited, dist, cur);
    var walk := Reverse(cur.path);
    assert walk[0] == cur.sym && walk[|walk| - 1] == sink;
    forall other | ReachesSink(g, ingresses, sink, other) ensures |walk| <= |other| {
      HeadIsNearest(g, ingresses, sink, done, visited, dist, queue, other);
    }
    assert Distinct(walk);
  }

  // ----- which of the shortest chains -----

  /** Of the chains as short as it, to any entry point, walk is the first by the edges it takes. */
  ghost predicate IsFirst(g: Graph, ingresses: seq<Symbol>, sink: string, walk: seq<string>) {
    forall other :: ReachesSink(g, ingresses, sink, other) && |other| == |walk| ==>
                      AtMost(g, Reverse(walk), Reverse(other))
  }

  /** The queue is in the order of its paths, none of which has an earlier chain to the same end. */
  ghost predicate Ranked(g: Graph, sink: string, queue: seq<Node>) {
    && (forall i :: 0 <= i < |queue| ==> Least(g, sink, queue[i].path))
    && InOrder(g, queue)
    && (forall i :: 0 < i < |queue| && |queue[i].path| == |queue[0].path| + 1 ==>
          Before(g, queue[i].path[..|queue[0].path|], queue[0].path))
  }

  ghost predicate InOrder(g: Graph, queue: seq<Node>) {
    forall i, j :: 0 <= i < j < |queue| && |queue[i].path| == |queue[j].path| ==>
                     Before(g, queue[i].path, queue[j].path)
  }

  /** On a chain whose end is not done with, the search has stopped somewhere. */
  lemma {:induction false} FirstLeft(g: Graph, ingresses: seq<Symbol>, sink: string, done: set<string>,
                                     visited: set<string>, dist: map<string, nat>, q: seq<string>, k: nat)
    returns (m: nat)
    requires Closed(g, ingresses, done, visited, dist) && Chain(g, q, sink) && q[|q| - 1] !in done
    requires k < |q| && q[k] in visited && dist[q[k]] <= k + 1
    ensures k <= m < |q| && q[m] in visited && q[m] !in done && dist[q[m]] <= m + 1
    decreases |q| - k
  {
    if q[k] !in done {
      m := k;
    } else {
      assert Calls(g, q[k + 1], q[k]);
      m := FirstLeft(g, ingresses, sink, done, visited, dist, q, k + 1);
    }
  }

  /** A chain as long as the head's path, to an end not done with, ends at a queued node at that distance. */
  lemma OnChain(g: Graph, ingresses: seq<Symbol>, sink: string, done: set<string>, visited: set<string>,
                dist: map<string, nat>, queue: seq<Node>, q: seq<string>)
    returns (j: nat)
    requires queue != [] && Searching(g, ingresses, sink, done, visited, dist, queue)
    requires Chain(g, q, sink) && |q| == |queue[0].path| && q[|q| - 1] !in done
    ensures j < |queue| && queue[j].sym == q[|q| - 1] && |queue[j].path| == |q|
    ensures queue[j].path != [] && queue[j].path[|queue[j].path| - 1] == queue[j].sym
  {
    hide Calls, IsEntry, GoodNode, Closed;
    assert visited <= dist.Keys by { ClosedVisits(g, ingresses, done, visited, dist); }
    var m := FirstLeft(g, ingresses, sink, done, visited, dist, q, 0);
    j :| 0 <= j < |queue| && queue[j].sym == q[m];
    NodeDistance(g, sink, visited, dist, queue[j]);
    assert |queue[0].path| <= |queue[j].path|;
  }

  lemma ClosedVisits(g: Graph, ingresses: seq<Symbol>, done: set<string>, visited: set<string>, dist: map<string, nat>)
    requires Closed(g, ingresses, done, visited, dist)
    ensures visited <= dist.Keys
  {
  }

  /** No chain of the head's length to a node not done with comes before the head's. */
  lemma HeadIsFirst(g: Graph, ingresses: seq<Symbol>, sink: string, done: set<string>, visited: set<string>,
                    dist: map<string, nat>, queue: seq<Node>, q: seq<string>)
    requires queue != [] && Searching(g, ingresses, sink, done, visited, dist, queue) && Ranked(g, sink, queue)
    requires Chain(g, q, sink) && |q| == |queue[0].path| && q[|q| - 1] !in done
    ensures AtMost(g, queue[0].path, q)
  {
    hide Searching, Chain, Before;
    var j := OnChain(g, ingresses, sink, done, visited, dist, queue, q);
    assert AtMost(g, queue[j].path, q);
    if j > 0 {
      BeforeTransitive(g, queue[0].path, queue[j].path, q);
    }
  }

  lemma ReversedChain(g: Graph, sink: string, walk: seq<string>)
    requires WalkTo(g, walk, sink)
    ensures Chain(g, Reverse(walk), sink) && |Reverse(walk)| == |walk| && Reverse(walk)[|walk| - 1] == walk[0]
  {
    var q := Reverse(walk);
    forall i | 0 <= i < |q| - 1 ensures Calls(g, q[i + 1], q[i]) {
      assert Calls(g, walk[|walk| - 2 - i], walk[|walk| - 2 - i + 1]);
    }
  }

  /** The head's path, when the search returns it, is the first of the shortest. */
  lemma ReturnsFirst(g: Graph, ingresses: seq<Symbol>, sink: string, done: set<string>, visited: set<string>,
                     dist: map<string, nat>, queue: seq<Node>)
    requires queue != [] && Searching(g, ingresses, sink, done, visited, dist, queue) && Ranked(g, sink, queue)
    ensures IsFirst(g, ingresses, sink, Reverse(queue[0].path))
  {
    hide Ranked, GoodNode, Chain, AtMost, Ordered, Calls, WalkTo, IsEntry;
    var path := queue[0].path;
    assert Reverse(Reverse(path)) == path;
    forall other | ReachesSink(g, ingresses, sink, other) && |other| == |path|
      ensures AtMost(g, path, Reverse(other))
    {
      EntryLeft(g, ingresses, sink, done, visited, dist, other);
      ReversedChain(g, sink, other);
      HeadIsFirst(g, ingresses, sink, done, visited, dist, queue, Reverse(other));
    }
  }

  /** So the path is determined: there is one first among the shortest. */
  lemma FirstIsUnique(g: Graph, ingresses: seq<Symbol>, sink: string, v: seq<string>, w: seq<string>)
    requires ReachesSink(g, ingresses, sink, v) && IsFirst(g, ingresses, sink, v)
    requires ReachesSink(g, ingresses, sink, w) && IsFirst(g, ingresses, sink, w) && |v| == |w|
    ensures v == w
  {
    hide Chain, Before, WalkTo, IsEntry;
    ReversedChain(g, sink, v);
    ReversedChain(g, sink, w);
    BeforeIsTotal(g, sink, Reverse(v), Reverse(w));
    forall i | 0 <= i < |v| ensures v[i] == w[i] {
      assert Reverse(v)[|v| - 1 - i] == v[i] && Reverse(w)[|v| - 1 - i] == w[i];
    }
  }

  lemma EntryLeft(g: Graph, ingresses: seq<Symbol>, sink: string, done: set<string>, visited: set<string>,
                  dist: map<string, nat>, walk: seq<string>)
    requires Closed(g, ingresses, done, visited, dist) && ReachesSink(g, ingresses, sink, walk)
    ensures walk != [] && walk[0] !in done
  {
  }

  // ----- and how the search keeps to their order -----

  /** A caller met for the first time extends the head's path to the first chain of its length. */
  lemma NewIsLeast(g: Graph, ingresses: seq<Symbol>, sink: string, done: set<string>, visited: set<string>,
                   dist: map<string, nat>, queue: seq<Node>, caller: string)
    requires queue != [] && Searching(g, ingresses, sink, done, visited, dist, queue) && Ranked(g, sink, queue)
    requires caller !in visited
    ensures Least(g, sink, queue[0].path + [caller])
  {
    hide Searching, Ranked, Before, Calls, IsEntry, AtMost;
    var path := queue[0].path;
    forall q | Chain(g, q, sink) && |q| == |path| + 1 && q[|q| - 1] == caller ensures AtMost(g, path + [caller], q) {
      var less := q[..|path|];
      assert q == less + [caller];
      HeadHasPath(g, ingresses, sink, done, visited, dist, queue);
      assert forall i :: 0 <= i < |less| - 1 ==> Calls(g, q[i + 1], q[i]);
      assert Calls(g, q[|path| - 1 + 1], q[|path| - 1]);
      NotDone(g, ingresses, sink, done, visited, dist, queue, less[|path| - 1], caller);
      HeadIsFirst(g, ingresses, sink, done, visited, dist, queue, less);
      AtMostExtends(g, path, less, caller);
    }
  }

  lemma HeadHasPath(g: Graph, ingresses: seq<Symbol>, sink: string, done: set<string>, visited: set<string>,
                    dist: map<string, nat>, queue: seq<Node>)
    requires queue != [] && Searching(g, ingresses, sink, done, visited, dist, queue)
    ensures queue[0].path != [] && queue[0].path[|queue[0].path| - 1] == queue[0].sym
  {
    hide Calls, IsEntry, WalkTo, Closed;
    assert GoodNode(g, sink, visited, dist, queue[0]);
  }

  lemma NotDone(g: Graph, ingresses: seq<Symbol>, sink: string, done: set<string>, visited: set<string>,
                dist: map<string, nat>, queue: seq<Node>, x: string, caller: string)
    requires Searching(g, ingresses, sink, done, visited, dist, queue) && Calls(g, caller, x) && caller !in visited
    ensures x !in done
  {
    hide Calls, IsEntry, GoodNode, Ordered;
  }

  lemma AtMostExtends(g: Graph, p: seq<string>, q: seq<string>, c: string)
    requires AtMost(g, p, q)
    ensures AtMost(g, p + [c], q + [c])
  {
    hide Before;
    if p != q {
      BeforeExtends(g, p, q, [c], [c]);
    }
  }

  /** A path one longer than the head's, put behind an earlier path or behind the head's to one of cs. */
  ghost predicate Follows(g: Graph, head: seq<string>, cs: seq<string>, q: seq<string>) {
    |q| == |head| + 1 && (Before(g, q[..|head|], head) || (q[..|head|] == head && q[|head|] in cs))
  }

  /** The queue while the callers cs of its former head, of this path, have been met. */
  ghost predicate Ranking(g: Graph, sink: string, head: seq<string>, cs: seq<string>, queue: seq<Node>) {
    && InOrder(g, queue)
    && forall k :: 0 <= k < |queue| ==>
         && Least(g, sink, queue[k].path)
         && ((|queue[k].path| == |head| && Before(g, head, queue[k].path)) || Follows(g, head, cs, queue[k].path))
  }

  lemma StartRanking(g: Graph, ingresses: seq<Symbol>, sink: string, done: set<string>, visited: set<string>,
                     dist: map<string, nat>, queue: seq<Node>)
    requires queue != [] && Searching(g, ingresses, sink, done, visited, dist, queue) && Ranked(g, sink, queue)
    ensures Ranking(g, sink, queue[0].path, [], queue[1..])
  {
    hide GoodNode, Closed, Least, Before;
    var rest := queue[1..];
    forall k | 0 <= k < |rest| ensures rest[k] == queue[k + 1] && |queue[0].path| <= |rest[k].path| {
    }
  }

  lemma MetMore(g: Graph, sink: string, head: seq<string>, cs: seq<string>, c: string, queue: seq<Node>)
    requires Ranking(g, sink, head, cs, queue)
    ensures Ranking(g, sink, head, cs + [c], queue)
  {
    hide Least, Before, InOrder;
  }

  /** A caller not among those met before, the last of callers[..i + 1], is queued behind them. */
  lemma AddRanked(g: Graph, sink: string, head: seq<string>, id: string, i: nat, queue: seq<Node>, node: Node)
    requires head != [] && head[|head| - 1] == id && i < |CallersIn(g.edges, id)|
    requires Ranking(g, sink, head, CallersIn(g.edges, id)[..i], queue)
    requires CallersIn(g.edges, id)[i] !in CallersIn(g.edges, id)[..i]
    requires node.path == head + [CallersIn(g.edges, id)[i]] && Least(g, sink, node.path)
    ensures Ranking(g, sink, head, CallersIn(g.edges, id)[..i + 1], queue + [node])
  {
    hide Least, CallersIn, EdgeAt, Before;
    var callers := CallersIn(g.edges, id);
    var after := queue + [node];
    forall k | 0 <= k < |queue| && |queue[k].path| == |node.path| ensures Before(g, queue[k].path, node.path) {
      var q := queue[k].path;
      assert q == q[..|head|] + [q[|head|]];
      if Before(g, q[..|head|], head) {
        BeforeExtends(g, q[..|head|], head, [q[|head|]], [callers[i]]);
      } else {
        var j :| 0 <= j < |callers[..i]| && callers[..i][j] == q[|head|];
        CallersInOrder(g.edges, id, j, i);
        LastDiffers(g, head, callers[j], callers[i]);
      }
    }
    assert node.path[..|head|] == head && node.path[|head|] == callers[..i + 1][i];
    assert callers[..i + 1] == callers[..i] + [callers[i]];
    MetMore(g, sink, head, callers[..i], callers[i], queue);
  }

  lemma LastDiffers(g: Graph, head: seq<string>, a: string, b: string)
    requires head != [] && EdgeAt(g.edges, a, head[|head| - 1]) < EdgeAt(g.edges, b, head[|head| - 1])
    ensures Before(g, head + [a], head + [b])
  {
    hide EdgeAt;
    assert (head + [a])[..|head|] == (head + [b])[..|head|];
    assert PartsAt(g, head + [a], head + [b], |head|);
  }

  lemma EndRanking(g: Graph, sink: string, head: seq<string>, cs: seq<string>, queue: seq<Node>)
    requires Ranking(g, sink, head, cs, queue)
    ensures Ranked(g, sink, queue)
  {
    hide Least, Before;
    forall i | 0 < i < |queue| && |queue[i].path| == |queue[0].path| + 1
      ensures Before(g, queue[i].path[..|queue[0].path|], queue[0].path)
    {
      if Before(g, queue[i].path[..|head|], head) {
        BeforeTransitive(g, queue[i].path[..|head|], head, queue[0].path);
      }
    }
  }

  lemma StartRanked(g: Graph, sink: string)
    ensures Ranked(g, sink, [Node(sink, [sink])])
  {
    forall q | Chain(g, q, sink) && |q| == 1 ensures q == [sink] {
      assert q == [q[0]];
    }
  }

  method IngressSymbols(ingresses: seq<Symbol>) returns (syms: map<string, Symbol>)
    ensures forall id :: id in syms <==> IsIngress(ingresses, id)
    ensures forall id :: id in syms ==> syms[id] == LastNamed(ingresses, id)
  {
    syms := map[];
    for i := 0 to |ingresses|
      invariant forall id :: id in syms <==> IsIngress(ingresses[..i], id)
      invariant forall id :: id in syms ==> syms[id] == LastNamed(ingresses[..i], id)
    {
      hide LastNamed;
      assert ingresses[..i + 1] == ingresses[..i] + [ingresses[i]];
      LastNamedStep(ingresses[..i], ingresses[i]);
      IngressStep(ingresses, i);
      if ingresses[i].scip != "" {
        syms := syms[ingresses[i].scip := ingresses[i]];
      }
    }
    assert ingresses[..|ingresses|] == ingresses;
  }

  lemma IngressStep(ingresses: seq<Symbol>, i: nat)
    requires i < |ingresses|
    ensures forall id :: IsIngress(ingresses[..i + 1], id) <==>
                         IsIngress(ingresses[..i], id) || (id != "" && ingresses[i].scip == id)
  {
    forall id | IsIngress(ingresses[..i], id) || (id != "" && ingresses[i].scip == id)
      ensures IsIngress(ingresses[..i + 1], id) {
      if IsIngress(ingresses[..i], id) {
        var k :| 0 <= k < i && ingresses[..i][k].scip == id;
        assert ingresses[..i + 1][k].scip == id;
      } else {
        assert ingresses[..i + 1][i].scip == id;
      }
    }
  }

  /**
   firstPartyReachPaths: for a sink and a graph with an edge, a path is returned exactly when some
   ingress or root reaches the sink; it is a shortest such call chain and repeats no symbol, and of the
   shortest the first by the edges it takes from the sink on.
   */
  method FirstPartyReachPaths(g: Graph, idx: ReverseIndex, ingresses: seq<Symbol>, sink: string)
    returns (paths: seq<ReachPath>)
    requires idx.Indexes(g)
    ensures sink == "" || g.edges == [] ==> paths == []
    ensures sink != "" && g.edges != [] ==> (paths != [] <==> exists walk :: ReachesSink(g, ingresses, sink, walk))
    ensures paths != [] ==> |paths| == 1 && exists walk ::
            IsShortest(g, ingresses, sink, paths[0], walk) && IsFirst(g, ingresses, sink, walk)
  {
    hide Searching, ReachesSink, IsShortest, IsFirst, Ranked, Universe, IsIngress, IsRoot, ResolvedSymbol, LastNamed;
    if sink == "" || |g.edges| == 0 {
      return [];
    }
    var ingressSyms := IngressSymbols(ingresses);
    var visited := {sink};
    var queue := [Node(sink, [sink])];
    ghost var done: set<string> := {};
    ghost var dist: map<string, nat> := map[sink := 1];
    StartSearching(g, ingresses, sink);
    StartRanked(g, sink);
    SinkInUniverse(g, sink);
    while |queue| > 0
      invariant Searching(g, ingresses, sink, done, visited, dist, queue) && Ranked(g, sink, queue)
      invariant visited <= Universe(g, sink)
      decreases |Universe(g, sink) - visited|, |queue|
    {
      var cur := queue[0];
      if cur.sym in ingressSyms || cur.sym in idx.roots {
        var trace := Resolve(g, idx, ingresses, ingressSyms, cur.path);
        HeadPath(g, ingresses, sink, done, visited, dist, queue);
        var ingress := if cur.sym in ingressSyms then trace[0] else NO_SYMBOL;
        var path := ReachPath(trace[|trace| - 1], ingress, trace);
        HeadIsShortest(g, ingresses, sink, done, visited, dist, queue, path);
        ShortestReaches(g, ingresses, sink, path, Reverse(cur.path));
        ReturnsFirst(g, ingresses, sink, done, visited, dist, queue);
        paths := [path];
        assert IsShortest(g, ingresses, sink, paths[0], Reverse(cur.path));
        return;
      }
      ghost var before := visited;
      queue, visited, dist := Expand(g, idx, ingresses, sink, done, visited, dist, queue);
      done := done + {cur.sym};
      FewerLeft(Universe(g, sink), before, visited);
    }
    forall walk ensures !ReachesSink(g, ingresses, sink, walk) {
      if ReachesSink(g, ingresses, sink, walk) {
        HeadIsNearest(g, ingresses, sink, done, visited, dist, queue, walk);
      }
    }
    return [];
  }

  lemma ShortestReaches(g: Graph, ingresses: seq<Symbol>, sink: string, path: ReachPath, walk: seq<string>)
    requires IsShortest(g, ingresses, sink, path, walk)
    ensures ReachesSink(g, ingresses, sink, walk)
  {
  }

  lemma SinkInUniverse(g: Graph, sink: string)
    ensures {sink} <= Universe(g, sink)
  {
  }

  lemma HeadPath(g: Graph, ingresses: seq<Symbol>, sink: string, done: set<string>, visited: set<string>,
                 dist: map<string, nat>, queue: seq<Node>)
    requires queue != [] && Searching(g, ingresses, sink, done, visited, dist, queue)
    ensures queue[0].path != []
  {
    assert GoodNode(g, sink, visited, dist, queue[0]);
  }

  lemma FewerLeft(all: set<string>, before: set<string>, after: set<string>)
    requires before <= after <= all
    ensures before == after || |all - after| < |all - before|
  {
    if before != after {
      assert after - before != {} by { assert before + (after - before) == after; }
      var x :| x in after - before;
      assert all - after <= (all - before) - {x};
      assert (all - before) - {x} == (all - after) + (((all - before) - {x}) - (all - after));
    }
  }

  /** symOf over a path, last node first. */
  method Resolve(g: Graph, idx: ReverseIndex, ingresses: seq<Symbol>, ingressSyms: map<string, Symbol>,
                 path: seq<string>)
    returns (trace: seq<Symbol>)
    requires idx.Indexes(g)
    requires forall id :: id in ingressSyms <==> IsIngress(ingresses, id)
    requires forall id :: id in ingressSyms ==> ingressSyms[id] == LastNamed(ingresses, id)
    ensures |trace| == |path|
    ensures forall i :: 0 <= i < |path| ==> trace[i] == ResolvedSymbol(g, ingresses, Reverse(path)[i])
  {
    trace := [];
    for i := 0 to |path|
      invariant |trace| == i
      invariant forall k :: 0 <= k < i ==> trace[k] == ResolvedSymbol(g, ingresses, Reverse(path)[k])
    {
      var id := path[|path| - 1 - i];
      var s := if id !in idx.roots && id in ingressSyms then ingressSyms[id] else idx.GetSymbol(id);
      trace := trace + [s];
    }
  }

  /** What the loop over the head's callers has done after the first n of them. */
  ghost predicate Expanding(g: Graph, sink: string, visited: set<string>, dist: map<string, nat>, queue: seq<Node>,
                            visited': set<string>, dist': map<string, nat>, queue': seq<Node>)
    requires queue != []
  {
    && visited <= visited' <= dist'.Keys && visited <= dist.Keys
    && (forall x :: x in visited ==> dist'[x] == dist[x])
    && queue[1..] <= queue'
    && (forall k :: |queue| - 1 <= k < |queue'| ==> |queue'[k].path| == |queue[0].path| + 1)
    && (forall k :: 0 <= k < |queue'| ==> GoodNode(g, sink, visited', dist', queue'[k]))
    && Queued(visited, |queue| - 1, visited', queue')
    && (visited' == visited ==> queue' == queue[1..])
  }

  lemma StartExpanding(g: Graph, ingresses: seq<Symbol>, sink: string, done: set<string>, visited: set<string>,
                       dist: map<string, nat>, queue: seq<Node>)
    requires queue != [] && Searching(g, ingresses, sink, done, visited, dist, queue)
    ensures Expanding(g, sink, visited, dist, queue, visited, dist, queue[1..])
    ensures GoodNode(g, sink, visited, dist, queue[0])
    ensures visited <= dist.Keys && forall x :: x in visited ==> dist[x] <= |queue[0].path| + 1
  {
    hide GoodNode, Calls, IsEntry;
    assert queue[0] == Node(queue[0].sym, queue[0].path);
  }

  lemma AddCaller(g: Graph, sink: string, visited: set<string>, dist: map<string, nat>, queue: seq<Node>,
                  visited': set<string>, dist': map<string, nat>, queue': seq<Node>, caller: string)
    requires queue != [] && Expanding(g, sink, visited, dist, queue, visited', dist', queue')
    requires GoodNode(g, sink, visited', dist', queue[0])
    requires Calls(g, caller, queue[0].sym) && caller !in visited'
    ensures var n := |queue[0].path| + 1;
            && Expanding(g, sink, visited, dist, queue, visited' + {caller}, dist'[caller := n],
                         queue' + [Node(caller, queue[0].path + [caller])])
            && GoodNode(g, sink, visited' + {caller}, dist'[caller := n], queue[0])
  {
    hide GoodNode, Calls, Queued;
    var n := |queue[0].path| + 1;
    assert queue[0] == Node(queue[0].sym, queue[0].path);
    Extend(g, sink, visited', dist', queue[0], caller);
    StaysGood(g, sink, visited', dist', queue[0], caller, n);
    forall k | 0 <= k < |queue'| ensures GoodNode(g, sink, visited' + {caller}, dist'[caller := n], queue'[k]) {
      StaysGood(g, sink, visited', dist', queue'[k], caller, n);
    }
    QueuedMore(visited, |queue| - 1, visited', queue', Node(caller, queue[0].path + [caller]));
  }

  /** visited' holds visited and what is queued from the n-th on. */
  ghost predicate Queued(visited: set<string>, n: nat, visited': set<string>, queue': seq<Node>) {
    forall x :: x in visited' <==> x in visited || exists k :: n <= k < |queue'| && queue'[k].sym == x
  }

  lemma QueuedMore(visited: set<string>, n: nat, visited': set<string>, queue': seq<Node>, node: Node)
    requires Queued(visited, n, visited', queue') && n <= |queue'|
    ensures Queued(visited, n, visited' + {node.sym}, queue' + [node])
  {
    var after := queue' + [node];
    assert after[|queue'|] == node && forall k :: 0 <= k < |queue'| ==> after[k] == queue'[k];
    forall x ensures x in visited' + {node.sym} <==> x in visited || exists k :: n <= k < |after| && after[k].sym == x {
      if x in visited' && x !in visited {
        var k :| n <= k < |queue'| && queue'[k].sym == x;
        assert after[k].sym == x;
      }
    }
  }

  lemma Expanded(g: Graph, ingresses: seq<Symbol>, sink: string, done: set<string>, visited: set<string>,
                 dist: map<string, nat>, queue: seq<Node>, visited': set<string>, dist': map<string, nat>,
                 queue': seq<Node>)
    requires queue != [] && Searching(g, ingresses, sink, done, visited, dist, queue)
    requires Expanding(g, sink, visited, dist, queue, visited', dist', queue')
    requires !IsEntry(g, ingresses, queue[0].sym)
    requires forall c :: Calls(g, c, queue[0].sym) ==> c in visited'
    requires forall x :: x in visited' ==> dist'[x] <= |queue[0].path| + 1
    ensures Searching(g, ingresses, sink, done + {queue[0].sym}, visited', dist', queue')
  {
    hide Calls, IsEntry, GoodNode, Closed, Ordered;
    NodeDistance(g, sink, visited, dist, queue[0]);
    forall k | 0 <= k < |queue| - 1 ensures queue'[k] == queue[k + 1] {
      assert queue[1..][k] == queue[k + 1];
    }
    forall x
      ensures x in visited' <==> x in done + {queue[0].sym} || exists k :: 0 <= k < |queue'| && queue'[k].sym == x {
      VisitedSplit(g, ingresses, sink, done, visited, dist, queue, visited', dist', queue', x);
    }
    assert Closed(g, ingresses, done + {queue[0].sym}, visited', dist') by {
      ClosedGrows(g, ingresses, done, visited, dist, visited', dist', queue[0].sym);
    }
    assert Ordered(queue') by { OrderedGrows(queue, queue'); }
    assert queue' != [] ==> |queue[0].path| <= |queue'[0].path| by { OrderedGrows(queue, queue'); }
  }

  lemma ClosedGrows(g: Graph, ingresses: seq<Symbol>, done: set<string>, visited: set<string>, dist: map<string, nat>,
                    visited': set<string>, dist': map<string, nat>, x: string)
    requires Closed(g, ingresses, done, visited, dist) && x in visited && !IsEntry(g, ingresses, x)
    requires visited <= visited' <= dist'.Keys && forall y :: y in visited ==> dist'[y] == dist[y]
    requires forall c :: Calls(g, c, x) ==> c in visited' && dist'[c] <= dist[x] + 1
    ensures Closed(g, ingresses, done + {x}, visited', dist')
  {
    hide Calls, IsEntry;
  }

  lemma OrderedGrows(queue: seq<Node>, queue': seq<Node>)
    requires queue != [] && Ordered(queue) && |queue'| >= |queue| - 1
    requires forall k :: 0 <= k < |queue| - 1 ==> queue'[k] == queue[k + 1]
    requires forall k :: |queue| - 1 <= k < |queue'| ==> |queue'[k].path| == |queue[0].path| + 1
    ensures Ordered(queue') && (queue' != [] ==> |queue[0].path| <= |queue'[0].path|)
  {
    assert forall k :: 0 <= k < |queue'| ==> |queue[0].path| <= |queue'[k].path| <= |queue[0].path| + 1;
    forall i, j | 0 <= i < j < |queue'| ensures |queue'[i].path| <= |queue'[j].path| {
      if j < |queue| - 1 {
        assert |queue[i + 1].path| <= |queue[j + 1].path|;
      }
    }
  }

  lemma VisitedSplit(g: Graph, ingresses: seq<Symbol>, sink: string, done: set<string>, visited: set<string>,
                     dist: map<string, nat>, queue: seq<Node>, visited': set<string>, dist': map<string, nat>,
                     queue': seq<Node>, x: string)
    requires queue != [] && Searching(g, ingresses, sink, done, visited, dist, queue)
    requires Expanding(g, sink, visited, dist, queue, visited', dist', queue')
    requires forall k :: 0 <= k < |queue| - 1 ==> queue'[k] == queue[k + 1]
    ensures x in visited' <==> x in done + {queue[0].sym} || exists k :: 0 <= k < |queue'| && queue'[k].sym == x
  {
    hide Calls, IsEntry, GoodNode, Closed, Ordered;
    if x in visited && x !in done {
      var i :| 0 <= i < |queue| && queue[i].sym == x;
      assert i > 0 ==> queue'[i - 1].sym == x;
    }
    if k :| 0 <= k < |queue'| && queue'[k].sym == x {
      if k < |queue| - 1 {
        assert queue[k + 1].sym == x;
      }
    }
  }

  lemma CallersAreCalls(g: Graph, id: string, sink: string)
    ensures forall c :: c in CallersIn(g.edges, id) <==> Calls(g, c, id)
    ensures forall c :: c in CallersIn(g.edges, id) ==> c in Universe(g, sink)
  {
  }

  /** The loop over the head's callers: each unvisited one is queued with the path extended to it. */
  method Expand(g: Graph, idx: ReverseIndex, ingresses: seq<Symbol>, sink: string, ghost done: set<string>,
                visited: set<string>, ghost dist: map<string, nat>, queue: seq<Node>)
    returns (queue': seq<Node>, visited': set<string>, ghost dist': map<string, nat>)
    requires idx.Indexes(g)
    requires queue != [] && Searching(g, ingresses, sink, done, visited, dist, queue) && Ranked(g, sink, queue)
    requires !IsEntry(g, ingresses, queue[0].sym) && visited <= Universe(g, sink)
    ensures Searching(g, ingresses, sink, done + {queue[0].sym}, visited', dist', queue') && Ranked(g, sink, queue')
    ensures visited <= visited' <= Universe(g, sink)
    ensures visited' == visited ==> queue' == queue[1..]
  {
    hide GoodNode, Searching, Ranked, Ranking, Least, Calls, IsEntry, Universe, Expanding, CallersIn, SymbolOf, IsRoot;
    var cur := queue[0];
    var callers := idx.GetCallers(cur.sym);
    CallersAreCalls(g, cur.sym, sink);
    queue', visited', dist' := queue[1..], visited, dist;
    StartExpanding(g, ingresses, sink, done, visited, dist, queue);
    StartRanking(g, ingresses, sink, done, visited, dist, queue);
    HeadHasPath(g, ingresses, sink, done, visited, dist, queue);
    for i := 0 to |callers|
      invariant Expanding(g, sink, visited, dist, queue, visited', dist', queue')
      invariant GoodNode(g, sink, visited', dist', cur)
      invariant Ranking(g, sink, cur.path, callers[..i], queue') && visited <= visited'
      invariant visited' <= Universe(g, sink) && visited' <= dist'.Keys
      invariant forall k :: 0 <= k < i ==> callers[k] in visited'
      invariant forall x :: x in visited' ==> dist'[x] <= |cur.path| + 1
    {
      var caller := callers[i];
      assert caller in callers;
      assert callers[..i + 1] == callers[..i] + [caller];
      MetMore(g, sink, cur.path, callers[..i], caller, queue');
      if caller !in visited' {
        assert forall k :: 0 <= k < i ==> callers[k] in visited';
        NewIsLeast(g, ingresses, sink, done, visited, dist, queue, caller);
        AddRanked(g, sink, cur.path, cur.sym, i, queue', Node(caller, cur.path + [caller]));
        AddCaller(g, sink, visited, dist, queue, visited', dist', queue', caller);
        visited' := visited' + {caller};
        queue' := queue' + [Node(caller, cur.path + [caller])];
        dist' := dist'[caller := |cur.path| + 1];
      }
    }
    Expanded(g, ingresses, sink, done, visited, dist, queue, visited', dist', queue');
    EndRanking(g, sink, cur.path, callers[..|callers|], queue');
    NothingVisited(g, sink, visited, dist, queue, visited', dist', queue');
  }

  lemma NothingVisited(g: Graph, sink: string, visited: set<string>, dist: map<string, nat>, queue: seq<Node>,
                       visited': set<string>, dist': map<string, nat>, queue': seq<Node>)
    requires queue != [] && Expanding(g, sink, visited, dist, queue, visited', dist', queue')
    ensures visited <= visited' && (visited' == visited ==> queue' == queue[1..])
  {
  }

  /** The ids of the returned trace are the ids of the chain: symbols are looked up, not renamed. */
  lemma TraceKeepsIDs(g: Graph, ingresses: seq<Symbol>, sink: string, path: ReachPath, walk: seq<string>, i: nat)
    requires IsShortest(g, ingresses, sink, path, walk) && i < |walk|
    ensures path.trace[i].scip == walk[i]
  {
    if IsRoot(g, walk[i]) || !IsIngress(ingresses, walk[i]) {
      assert i > 0 ==> Calls(g, walk[i - 1], walk[i]);
      assert i < |walk| - 1 ==> Calls(g, walk[i], walk[i + 1]);
      SymbolKeepsID(g, walk[i]);
    }
  }
}
