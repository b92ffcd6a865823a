/** Reachability along the edges of a module. */
module EdgePaths {
  import opened Schema

  /** A walk along edges. */
  ghost predicate Walk(edges: seq<Edge>, p: seq<string>) {
    p != [] && forall i :: 0 <= i < |p| - 1 ==> Edge(p[i], p[i + 1]) in edges
  }

  ghost predicate WalkFrom(edges: seq<Edge>, p: seq<string>, a: string, b: string) {
    Walk(edges, p) && p[0] == a && p[|p| - 1] == b
  }

  ghost predicate Reaches(edges: seq<Edge>, a: string, b: string) {
    exists p :: WalkFrom(edges, p, a, b)
  }

  lemma ReachesNext(edges: seq<Edge>, a: string, b: string, c: string)
    requires Reaches(edges, a, b) && (b == c || Edge(b, c) in edges)
    ensures Reaches(edges, a, c)
  {
    if b != c {
      var p :| WalkFrom(edges, p, a, b);
      var q := p + [c];
      assert forall i :: 0 <= i < |p| ==> q[i] == p[i];
      assert WalkFrom(edges, q, a, c);
    }
  }

  lemma ReachesItself(edges: seq<Edge>, a: string)
    ensures Reaches(edges, a, a)
  {
    assert WalkFrom(edges, [a], a, a);
  }

  lemma ReachesMore(edges: seq<Edge>, more: seq<Edge>, a: string, b: string)
    requires Reaches(edges, a, b) && edges <= more
    ensures Reaches(more, a, b)
  {
    var p :| WalkFrom(edges, p, a, b);
    assert forall e :: e in edges ==> e in more;
    assert WalkFrom(more, p, a, b);
  }
}
