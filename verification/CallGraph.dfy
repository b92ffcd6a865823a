/** A call graph and its reverse-edge index (plugin/callgraph_view.go). */
module CallGraph {

  /** A symbol by its SCIP id and everything else it carries. */
  datatype Symbol = Symbol(scip: string, detail: string)

  const NO_SYMBOL := Symbol("", "")

  datatype Edge = Edge(caller: Symbol, callee: Symbol)

  datatype Graph = Graph(edges: seq<Edge>, roots: seq<Symbol>)

  predicate Calls(g: Graph, caller: string, callee: string) {
    exists i :: 0 <= i < |g.edges| && g.edges[i].caller.scip == caller && g.edges[i].callee.scip == callee
  }

  predicate IsRoot(g: Graph, id: string) {
    exists i :: 0 <= i < |g.roots| && g.roots[i].scip == id
  }

  /** The caller of each of the edges into id, in edge order. */
  function CallersIn(edges: seq<Edge>, id: string): (r: seq<string>)
    ensures forall c :: c in r <==> exists i ::
            0 <= i < |edges| && edges[i].caller.scip == c && edges[i].callee.scip == id
  {
    if edges == [] then []
    else
      var last := edges[|edges| - 1];
      assert edges == edges[..|edges| - 1] + [last];
      CallersIn(edges[..|edges| - 1], id) + if last.callee.scip == id then [last.caller.scip] else []
  }

  /** The last of the symbols carrying id, or NO_SYMBOL. */
  function LastNamed(syms: seq<Symbol>, id: string): (s: Symbol)
    ensures if exists i :: 0 <= i < |syms| && syms[i].scip == id then s in syms && s.scip == id else s == NO_SYMBOL
  {
    if syms == [] then NO_SYMBOL
    else if syms[|syms| - 1].scip == id then syms[|syms| - 1]
    else LastNamed(syms[..|syms| - 1], id)
  }

  function Endpoints(edges: seq<Edge>): (r: seq<Symbol>)
    ensures forall s :: s in r <==> exists i :: 0 <= i < |edges| && (s == edges[i].caller || s == edges[i].callee)
  {
    if edges == [] then []
    else
      var last := edges[|edges| - 1];
      Endpoints(edges[..|edges| - 1]) + [last.caller, last.callee]
  }

  /** The last root naming id, else the last edge endpoint naming it. */
  function SymbolOf(g: Graph, id: string): Symbol {
    LastNamed(Endpoints(g.edges) + g.roots, id)
  }

  ghost predicate IsLast(syms: seq<Symbol>, id: string, i: int) {
    0 <= i < |syms| && syms[i].scip == id && forall k :: i < k < |syms| ==> syms[k].scip != id
  }

  /** The last edge that mentions id. */
  ghost predicate LastMention(edges: seq<Edge>, id: string, i: int) {
    && 0 <= i < |edges| && (edges[i].caller.scip == id || edges[i].callee.scip == id)
    && forall k :: i < k < |edges| ==> edges[k].caller.scip != id && edges[k].callee.scip != id
  }

  /** An id stands for the last root that carries it, else for the end of the last edge that does, the callee if
      both ends do. */
  lemma SymbolIs(g: Graph, id: string, i: int)
    ensures IsLast(g.roots, id, i) ==> SymbolOf(g, id) == g.roots[i]
    ensures !IsRoot(g, id) && LastMention(g.edges, id, i) ==>
              SymbolOf(g, id) == if g.edges[i].callee.scip == id then g.edges[i].callee else g.edges[i].caller
  {
    hide LastNamed, Endpoints;
    var ends := Endpoints(g.edges);
    var syms := ends + g.roots;
    if IsLast(g.roots, id, i) {
      forall k | |ends| + i < k < |syms| ensures syms[k].scip != id {
        assert syms[k] == g.roots[k - |ends|];
      }
      LastIs(syms, id, |ends| + i);
    } else if !IsRoot(g, id) && LastMention(g.edges, id, i) {
      EndpointsAt(g.edges);
      var at := if g.edges[i].callee.scip == id then 2 * i + 1 else 2 * i;
      forall k | at < k < |syms| ensures syms[k].scip != id {
        if k < |ends| {
          assert ends[k] == if k % 2 == 0 then g.edges[k / 2].caller else g.edges[k / 2].callee;
        }
      }
      assert ends[at] == if at % 2 == 0 then g.edges[at / 2].caller else g.edges[at / 2].callee;
      LastIs(syms, id, at);
    }
  }

  lemma {:induction false} LastIs(syms: seq<Symbol>, id: string, i: int)
    requires IsLast(syms, id, i)
    ensures LastNamed(syms, id) == syms[i]
  {
    if i < |syms| - 1 {
      LastIs(syms[..|syms| - 1], id, i);
    }
  }

  lemma {:induction false} EndpointsAt(edges: seq<Edge>)
    ensures |Endpoints(edges)| == 2 * |edges|
    ensures forall k :: 0 <= k < 2 * |edges| ==>
            Endpoints(edges)[k] == if k % 2 == 0 then edges[k / 2].caller else edges[k / 2].callee
  {
    if edges != [] {
      EndpointsAt(edges[..|edges| - 1]);
    }
  }

  /** Every id the graph mentions has a symbol carrying that id. */
  lemma SymbolKeepsID(g: Graph, id: string)
    requires IsRoot(g, id) || exists other :: Calls(g, id, other) || Calls(g, other, id)
    ensures SymbolOf(g, id).scip == id
  {
    var syms := Endpoints(g.edges) + g.roots;
    assert exists s :: s in syms && s.scip == id by {
      if IsRoot(g, id) {
        var i :| 0 <= i < |g.roots| && g.roots[i].scip == id;
        assert syms[|Endpoints(g.edges)| + i] == g.roots[i];
      } else {
        var other :| Calls(g, id, other) || Calls(g, other, id);
        if Calls(g, id, other) {
          var i :| 0 <= i < |g.edges| && g.edges[i].caller.scip == id && g.edges[i].callee.scip == other;
          assert g.edges[i].caller in Endpoints(g.edges);
        } else {
          var i :| 0 <= i < |g.edges| && g.edges[i].caller.scip == other && g.edges[i].callee.scip == id;
          assert g.edges[i].callee in Endpoints(g.edges);
        }
      }
    }
  }

  /** reverseIndex: the maps the walk reads, filled from the graph's lists in order. */
  class ReverseIndex {
    var sym: map<string, Symbol>
    var roots: set<string>
    var callers: map<string, seq<string>>

    ghost predicate Indexes(g: Graph)
      reads this
    {
      && (forall id :: GetSymbol(id) == SymbolOf(g, id))
      && (forall id :: id in roots <==> IsRoot(g, id))
      && (forall id :: GetCallers(id) == CallersIn(g.edges, id))
    }

    function GetSymbol(id: string): Symbol
      reads this
    {
      Lookup(sym, id, NO_SYMBOL)
    }

    function GetCallers(id: string): seq<string>
      reads this
    {
      Lookup(callers, id, [])
    }

    constructor (g: Graph)
      ensures Indexes(g)
    {
      sym, roots, callers := map[], {}, map[];
      new;
      AddEdges(g.edges);
      AddRoots(Endpoints(g.edges), g.roots);
    }

    method AddEdges(edges: seq<Edge>)
      requires sym == map[] && callers == map[]
      modifies this`sym, this`callers
      ensures forall id :: GetSymbol(id) == LastNamed(Endpoints(edges), id)
      ensures forall id :: GetCallers(id) == CallersIn(edges, id)
    {
      NoEdges();
      for i := 0 to |edges|
        invariant IndexesEdges(sym, callers, edges[..i])
      {
        var e := edges[i];
        IndexStep(sym, callers, edges, i);
        sym := sym[e.caller.scip := e.caller][e.callee.scip := e.callee];
        callers := callers[e.callee.scip := GetCallers(e.callee.scip) + [e.caller.scip]];
      }
      assert edges[..|edges|] == edges;
    }

    method AddRoots(ghost before: seq<Symbol>, rs: seq<Symbol>)
      requires roots == {}
      requires forall id :: GetSymbol(id) == LastNamed(before, id)
      modifies this`sym, this`roots
      ensures forall id :: GetSymbol(id) == LastNamed(before + rs, id)
      ensures forall id :: id in roots <==> exists k :: 0 <= k < |rs| && rs[k].scip == id
    {
      hide LastNamed;
      assert before + rs[..0] == before;
      for i := 0 to |rs|
        invariant forall id :: id in roots <==> exists k :: 0 <= k < i && rs[k].scip == id
        invariant forall id :: GetSymbol(id) == LastNamed(before + rs[..i], id)
      {
        assert before + rs[..i + 1] == (before + rs[..i]) + [rs[i]];
        LastNamedStep(before + rs[..i], rs[i]);
        sym := sym[rs[i].scip := rs[i]];
        roots := roots + {rs[i].scip};
      }
      assert rs[..|rs|] == rs;
    }
  }

  lemma LastNamedStep(syms: seq<Symbol>, s: Symbol)
    ensures forall id :: LastNamed(syms + [s], id) == if s.scip == id then s else LastNamed(syms, id)
  {
    assert (syms + [s])[..|syms|] == syms;
  }

  function Lookup<V>(m: map<string, V>, id: string, absent: V): V {
    if id in m then m[id] else absent
  }

  ghost predicate IndexesEdges(sym: map<string, Symbol>, callers: map<string, seq<string>>, edges: seq<Edge>) {
    && (forall id :: Lookup(sym, id, NO_SYMBOL) == LastNamed(Endpoints(edges), id))
    && (forall id :: Lookup(callers, id, []) == CallersIn(edges, id))
  }

  lemma NoEdges()
    ensures IndexesEdges(map[], map[], [])
  {
  }

  lemma IndexStep(sym: map<string, Symbol>, callers: map<string, seq<string>>, edges: seq<Edge>, i: nat)
    requires i < |edges| && IndexesEdges(sym, callers, edges[..i])
    ensures var e := edges[i];
            IndexesEdges(sym[e.caller.scip := e.caller][e.callee.scip := e.callee],
                         callers[e.callee.scip := Lookup(callers, e.callee.scip, []) + [e.caller.scip]],
                         edges[..i + 1])
  {
    hide LastNamed, CallersIn, Endpoints;
    EdgeStep(edges, i);
    var e := edges[i];
    var sym', callers' := sym[e.caller.scip := e.caller][e.callee.scip := e.callee],
                          callers[e.callee.scip := Lookup(callers, e.callee.scip, []) + [e.caller.scip]];
    forall id ensures Lookup(sym', id, NO_SYMBOL) == LastNamed(Endpoints(edges[..i + 1]), id) {
      assert Lookup(sym, id, NO_SYMBOL) == LastNamed(Endpoints(edges[..i]), id);
    }
    forall id ensures Lookup(callers', id, []) == CallersIn(edges[..i + 1], id) {
      assert Lookup(callers, id, []) == CallersIn(edges[..i], id);
      assert CallersIn(edges[..i], id) + [] == CallersIn(edges[..i], id);
    }
  }

  lemma EdgeStep(edges: seq<Edge>, i: nat)
    requires i < |edges|
    ensures var e := edges[i];
            && (forall id :: LastNamed(Endpoints(edges[..i + 1]), id) ==
                             if e.callee.scip == id then e.callee
                             else if e.caller.scip == id then e.caller
                             else LastNamed(Endpoints(edges[..i]), id))
            && (forall id :: CallersIn(edges[..i + 1], id) ==
                             CallersIn(edges[..i], id) + if e.callee.scip == id then [e.caller.scip] else [])
  {
    hide LastNamed;
    var e, before := edges[i], Endpoints(edges[..i]);
    assert edges[..i + 1][..i] == edges[..i] && edges[..i + 1][i] == e;
    assert Endpoints(edges[..i + 1]) == (before + [e.caller]) + [e.callee];
    LastNamedStep(before, e.caller);
    LastNamedStep(before + [e.caller], e.callee);
  }
}
