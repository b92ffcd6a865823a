/** The order in which a graph's edges rank the call chains into one sink (plugin/callgraph_view.go). */
module CallOrder {
  import opened CallGraph

  predicate Joins(e: Edge, caller: string, callee: string) {
    e.caller.scip == caller && e.callee.scip == callee
  }

  /** The first edge from caller to callee. */
  function EdgeAt(edges: seq<Edge>, caller: string, callee: string): (k: nat)
    ensures k <= |edges| && (k < |edges| ==> Joins(edges[k], caller, callee))
    ensures forall i :: 0 <= i < k ==> !Joins(edges[i], caller, callee)
  {
    if edges == [] || Joins(edges[0], caller, callee) then 0 else 1 + EdgeAt(edges[1..], caller, callee)
  }

  /** The callers of id come in the order of their first edges into it. */
  lemma {:induction false} CallersInOrder(edges: seq<Edge>, id: string, i: nat, j: nat)
    requires i < j < |CallersIn(edges, id)| && CallersIn(edges, id)[j] !in CallersIn(edges, id)[..j]
    ensures EdgeAt(edges, CallersIn(edges, id)[i], id) < EdgeAt(edges, CallersIn(edges, id)[j], id)
  {
    var n := |edges| - 1;
    var less, all := CallersIn(edges[..n], id), CallersIn(edges, id);
    assert all[..|less|] == less;
    EdgeStays(edges, all[i], id);
    if j < |less| {
      assert all[..j] == less[..j];
      CallersInOrder(edges[..n], id, i, j);
      EdgeStays(edges, all[j], id);
      assert all[i] in less && all[j] in less;
    } else {
      assert all[..j] == less && all[i] in less;
      assert forall k :: 0 <= k < n ==> edges[..n][k] == edges[k];
    }
  }

  lemma EdgeStays(edges: seq<Edge>, caller: string, callee: string)
    requires edges != []
    ensures caller in CallersIn(edges[..|edges| - 1], callee) ==>
              EdgeAt(edges, caller, callee) == EdgeAt(edges[..|edges| - 1], caller, callee) < |edges| - 1
  {
    hide CallersIn;
    var less := edges[..|edges| - 1];
    if caller in CallersIn(less, callee) {
      var i :| 0 <= i < |less| && less[i].caller.scip == caller && less[i].callee.scip == callee;
      assert Joins(less[i], caller, callee);
      var k, l := EdgeAt(less, caller, callee), EdgeAt(edges, caller, callee);
      assert edges[k] == less[k];
      assert l < |less| ==> less[l] == edges[l];
    }
  }

  // ----- chains, the sink first -----

  ghost predicate Chain(g: Graph, p: seq<string>, sink: string) {
    p != [] && p[0] == sink && forall i :: 0 <= i < |p| - 1 ==> Calls(g, p[i + 1], p[i])
  }

  /** Where p and q part, p takes the caller of the earlier edge. */
  ghost predicate PartsAt(g: Graph, p: seq<string>, q: seq<string>, k: nat) {
    0 < k < |p| && k < |q| && p[..k] == q[..k]
      && EdgeAt(g.edges, p[k], p[k - 1]) < EdgeAt(g.edges, q[k], q[k - 1])
  }

  ghost predicate Before(g: Graph, p: seq<string>, q: seq<string>) {
    exists k: nat :: PartsAt(g, p, q, k)
  }

  ghost predicate AtMost(g: Graph, p: seq<string>, q: seq<string>) {
    p == q || Before(g, p, q)
  }

  lemma BeforeTransitive(g: Graph, p: seq<string>, q: seq<string>, r: seq<string>)
    requires Before(g, p, q) && AtMost(g, q, r)
    ensures Before(g, p, r)
  {
    hide EdgeAt;
    var k: nat :| PartsAt(g, p, q, k);
    if q != r {
      var l: nat :| PartsAt(g, q, r, l);
      var m := if k < l then k else l;
      assert p[..m] == p[..k][..m] == q[..k][..m] == q[..m];
      assert q[..m] == q[..l][..m] == r[..l][..m] == r[..m];
      assert m < k ==> p[m] == p[..k][m] == q[..k][m] == q[m];
      assert m < l ==> q[m] == q[..l][m] == r[..l][m] == r[m];
      assert p[m - 1] == p[..m][m - 1] == q[..m][m - 1] == r[..m][m - 1] == r[m - 1];
      assert PartsAt(g, p, r, m);
    }
  }

  lemma BeforeExtends(g: Graph, p: seq<string>, q: seq<string>, s: seq<string>, t: seq<string>)
    requires Before(g, p, q)
    ensures Before(g, p + s, q + t)
  {
    hide EdgeAt;
    var k: nat :| PartsAt(g, p, q, k);
    assert (p + s)[..k] == p[..k] && (q + t)[..k] == q[..k];
    assert PartsAt(g, p + s, q + t, k);
  }

  /** No other chain of its length to where it ends comes before p. */
  ghost predicate Least(g: Graph, sink: string, p: seq<string>) {
    p != [] && forall q :: Chain(g, q, sink) && |q| == |p| && q[|q| - 1] == p[|p| - 1] ==> AtMost(g, p, q)
  }

  /** No two different chains of one length rank alike. */
  lemma BeforeIsTotal(g: Graph, sink: string, p: seq<string>, q: seq<string>)
    requires Chain(g, p, sink) && Chain(g, q, sink) && |p| == |q|
    ensures AtMost(g, p, q) || Before(g, q, p)
    ensures Before(g, p, q) ==> p != q && !Before(g, q, p)
  {
    hide EdgeAt;
    if p != q {
      var k := FirstDifference(p, q);
      assert Calls(g, p[k - 1 + 1], p[k - 1]) && Calls(g, q[k - 1 + 1], q[k - 1]);
      assert p[k - 1] == p[..k][k - 1] == q[..k][k - 1] == q[k - 1];
      EdgesDiffer(g, p[k], q[k], p[k - 1]);
      assert PartsAt(g, p, q, k) || PartsAt(g, q, p, k);
    }
    if Before(g, p, q) && Before(g, q, p) {
      BeforeTransitive(g, p, q, p);
    }
  }

  lemma EdgesDiffer(g: Graph, a: string, b: string, callee: string)
    requires Calls(g, a, callee) && Calls(g, b, callee) && a != b
    ensures EdgeAt(g.edges, a, callee) != EdgeAt(g.edges, b, callee)
  {
    var i :| 0 <= i < |g.edges| && g.edges[i].caller.scip == a && g.edges[i].callee.scip == callee;
    assert Joins(g.edges[i], a, callee);
  }

  lemma FirstDifference(p: seq<string>, q: seq<string>) returns (k: nat)
    requires |p| == |q| && p != q
    ensures k < |p| && p[..k] == q[..k] && p[k] != q[k]
  {
    k := 0;
    while p[k] == q[k]
      invariant k < |p| && p[..k] == q[..k] && p[k..] != q[k..]
      decreases |p| - k
    {
      assert p[k..] == [p[k]] + p[k + 1..] && q[k..] == [q[k]] + q[k + 1..];
      assert p[..k + 1] == p[..k] + [p[k]] && q[..k + 1] == q[..k] + [q[k]];
      k := k + 1;
    }
  }
}
