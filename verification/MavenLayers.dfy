/** The layers listFiles declares the wanted nodes in, one coordinate a layer (buildgraph/maven.go). */
module MavenLayers {
  import opened GoStrings
  import opened Schema

  // ----- counting -----

  function Count(nodes: seq<Node>, key: string): (n: nat)
    ensures n <= |nodes|
  {
    if nodes == [] then 0
    else Count(nodes[..|nodes| - 1], key) + if Key(nodes[|nodes| - 1]) == key then 1 else 0
  }

  lemma CountGrows(nodes: seq<Node>, n: Node, key: string)
    ensures Count(nodes + [n], key) == Count(nodes, key) + if Key(n) == key then 1 else 0
  {
    assert (nodes + [n])[..|nodes|] == nodes;
  }

  lemma HasKeyGrows(layer: seq<Node>, n: Node, key: string)
    ensures HasKey(layer + [n], key) <==> HasKey(layer, key) || Key(n) == key
  {
    hide Key;
    var all := layer + [n];
    if HasKey(layer, key) {
      var i :| 0 <= i < |layer| && Key(layer[i]) == key;
      assert all[i] == layer[i];
    }
    if Key(n) == key { assert all[|layer|] == n; }
  }

  function Flat(layers: seq<seq<Node>>): seq<Node> {
    if layers == [] then [] else Flat(layers[..|layers| - 1]) + layers[|layers| - 1]
  }

  /** A way to list the nodes: every one in one layer, no layer with a coordinate twice. */
  ghost predicate IsLayering(want: seq<Node>, layers: seq<seq<Node>>) {
    multiset(Flat(layers)) == multiset(want) && forall j :: 0 <= j < |layers| ==> OneNodePerKey(layers[j])
  }

  // ----- first fit -----

  /** Every coordinate sits in the first layers, as many as the nodes that share it. */
  ghost predicate Packed(nodes: seq<Node>, layers: seq<seq<Node>>) {
    && (forall key, j :: 0 <= j < |layers| ==> (HasKey(layers[j], key) <==> j < Count(nodes, key)))
    && (forall key :: Count(nodes, key) <= |layers|)
    && (forall j :: 0 <= j < |layers| ==> layers[j] != [])
  }

  /** The nodes with exactly j before them of their coordinate, in their order. */
  function Nth(nodes: seq<Node>, j: nat): seq<Node> {
    if nodes == [] then []
    else
      var front, last := nodes[..|nodes| - 1], nodes[|nodes| - 1];
      Nth(front, j) + if Count(front, Key(last)) == j then [last] else []
  }

  /** The j-th layer has the j-th node of each coordinate, counted from zero, and all nodes have a layer. */
  ghost predicate ByCount(nodes: seq<Node>, layers: seq<seq<Node>>) {
    forall j: nat :: Nth(nodes, j) == if j < |layers| then layers[j] else []
  }

  lemma PlacedByCount(nodes: seq<Node>, n: Node, layers: seq<seq<Node>>)
    requires ByCount(nodes, layers) && Count(nodes, Key(n)) <= |layers|
    ensures ByCount(nodes + [n], Put(layers, Count(nodes, Key(n)), n))
  {
    hide Key, Count;
    var all, more := nodes + [n], Put(layers, Count(nodes, Key(n)), n);
    assert all[..|all| - 1] == nodes;
    forall j: nat ensures Nth(all, j) == if j < |more| then more[j] else [] {
      assert Nth(nodes, j) == if j < |layers| then layers[j] else [];
      assert Nth(all, j) == Nth(nodes, j) + if Count(nodes, Key(n)) == j then [n] else [];
      assert [] + [n] == [n];
    }
  }

  /** The first layer without the coordinate, or the number of layers. */
  method FirstWithout(layers: seq<seq<Node>>, key: string) returns (i: nat)
    ensures i <= |layers| && (forall j :: 0 <= j < i ==> HasKey(layers[j], key))
    ensures i < |layers| ==> !HasKey(layers[i], key)
  {
    hide Key;
    i := 0;
    while i < |layers|
      invariant i <= |layers| && forall j :: 0 <= j < i ==> HasKey(layers[j], key)
    {
      var clash := false;
      for o := 0 to |layers[i]|
        invariant !clash && forall k :: 0 <= k < o ==> Key(layers[i][k]) != key
      {
        if Key(layers[i][o]) == key {
          clash := true;
          break;
        }
      }
      if !clash {
        return;
      }
      i := i + 1;
    }
  }

  /** The layering loop of listFiles. */
  method Layer(want: seq<Node>) returns (layers: seq<seq<Node>>)
    ensures IsLayering(want, layers) && Packed(want, layers) && ByCount(want, layers)
  {
    hide Key, HasKey, OneNodePerKey, Flat, IsLayering, Packed, ByCount, Nth;
    layers := [];
    NothingLayered();
    for w := 0 to |want|
      invariant IsLayering(want[..w], layers) && Packed(want[..w], layers) && ByCount(want[..w], layers)
    {
      assert want[..w + 1] == want[..w] + [want[w]];
      var i := FirstWithout(layers, Key(want[w]));
      Placed(want[..w], want[w], layers, i);
      PlacedPacked(want[..w], want[w], layers, i);
      PlacedByCount(want[..w], want[w], layers);
      layers := if i < |layers| then layers[i := layers[i] + [want[w]]] else layers + [[want[w]]];
    }
    assert want[..|want|] == want;
  }

  lemma NothingLayered()
    ensures IsLayering([], []) && Packed([], []) && ByCount([], [])
  {
  }

  function Put(layers: seq<seq<Node>>, i: nat, n: Node): seq<seq<Node>>
    requires i <= |layers|
  {
    if i < |layers| then layers[i := layers[i] + [n]] else layers + [[n]]
  }

  lemma Placed(nodes: seq<Node>, n: Node, layers: seq<seq<Node>>, i: nat)
    requires IsLayering(nodes, layers) && Packed(nodes, layers) && i <= |layers|
    requires forall j :: 0 <= j < i ==> HasKey(layers[j], Key(n))
    requires i < |layers| ==> !HasKey(layers[i], Key(n))
    ensures IsLayering(nodes + [n], Put(layers, i, n)) && Packed(nodes + [n], Put(layers, i, n))
  {
    PlacedPacked(nodes, n, layers, i);
    PlacedOnce(layers, i, n);
    hide Packed, OneNodePerKey, HasKey, Key;
    var more := Put(layers, i, n);
    forall j | 0 <= j < |more| ensures OneNodePerKey(more[j]) {
      if j == i {
        OneEachGrows(if i < |layers| then layers[i] else [], n);
        assert [] + [n] == [n];
      }
    }
  }

  lemma OneEachGrows(layer: seq<Node>, n: Node)
    requires OneNodePerKey(layer) && !HasKey(layer, Key(n))
    ensures OneNodePerKey(layer + [n])
  {
    hide Key;
  }

  lemma PlacedPacked(nodes: seq<Node>, n: Node, layers: seq<seq<Node>>, i: nat)
    requires Packed(nodes, layers) && i <= |layers|
    requires forall j :: 0 <= j < i ==> HasKey(layers[j], Key(n))
    requires i < |layers| ==> !HasKey(layers[i], Key(n))
    ensures i == Count(nodes, Key(n)) && Packed(nodes + [n], Put(layers, i, n))
  {
    hide HasKey, Key, Count;
    assert i > 0 ==> HasKey(layers[i - 1], Key(n));
    var more := Put(layers, i, n);
    forall key ensures Count(nodes + [n], key) == Count(nodes, key) + if Key(n) == key then 1 else 0 {
      CountGrows(nodes, n, key);
    }
    forall key, j | 0 <= j < |more| ensures HasKey(more[j], key) <==> j < Count(nodes + [n], key) {
      if j == i {
        HasKeyGrows(if i < |layers| then layers[i] else [], n, key);
        assert [] + [n] == [n];
        NoKey(key);
      }
    }
  }

  lemma NoKey(key: string)
    ensures !HasKey([], key)
  {
  }

  lemma {:induction false} PlacedOnce(layers: seq<seq<Node>>, i: nat, n: Node)
    requires i <= |layers|
    ensures multiset(Flat(Put(layers, i, n))) == multiset(Flat(layers)) + multiset{n}
  {
    hide Flat;
    var more := Put(layers, i, n);
    FlatSnoc(more);
    if i == |layers| {
      assert more[..|layers|] == layers;
    } else {
      var last := |layers| - 1;
      FlatSnoc(layers);
      if i == last {
        assert more[..i] == layers[..i];
      } else {
        PlacedOnce(layers[..last], i, n);
        assert more[..last] == Put(layers[..last], i, n) && more[last] == layers[last];
      }
    }
  }

  lemma FlatSnoc(layers: seq<seq<Node>>)
    requires layers != []
    ensures multiset(Flat(layers)) == multiset(Flat(layers[..|layers| - 1])) + multiset(layers[|layers| - 1])
  {
  }

  // ----- first fit needs the fewest layers -----

  lemma {:induction false} CountAppend(a: seq<Node>, b: seq<Node>, key: string)
    ensures Count(a + b, key) == Count(a, key) + Count(b, key)
  {
    if b == [] {
      assert a + b == a;
    } else {
      CountAppend(a, b[..|b| - 1], key);
      assert (a + b)[..|a + b| - 1] == a + b[..|b| - 1];
    }
  }

  lemma {:induction false} OneEachCount(layer: seq<Node>, key: string)
    requires OneNodePerKey(layer)
    ensures Count(layer, key) <= 1
    ensures Count(layer, key) == 1 ==> HasKey(layer, key)
  {
    hide Key;
    if layer != [] {
      var front, last := layer[..|layer| - 1], layer[|layer| - 1];
      assert layer == front + [last];
      OneEachCount(front, key);
      HasKeyGrows(front, last, key);
      assert forall i :: 0 <= i < |front| ==> layer[i] == front[i] && Key(layer[i]) != Key(last);
    }
  }

  lemma {:induction false} LayersBoundCount(layers: seq<seq<Node>>, key: string)
    requires forall j :: 0 <= j < |layers| ==> OneNodePerKey(layers[j])
    ensures Count(Flat(layers), key) <= |layers|
  {
    hide OneNodePerKey, Key;
    if layers != [] {
      var last := |layers| - 1;
      LayersBoundCount(layers[..last], key);
      CountAppend(Flat(layers[..last]), layers[last], key);
      OneEachCount(layers[last], key);
    }
  }

  /** Counting does not look at the order. */
  lemma {:induction false} CountIgnoresOrder(a: seq<Node>, b: seq<Node>, key: string)
    requires multiset(a) == multiset(b)
    ensures Count(a, key) == Count(b, key)
    decreases |a|
  {
    hide Key;
    if a == [] {
      assert |multiset(b)| == 0;
    } else {
      var n := a[|a| - 1];
      assert a == a[..|a| - 1] + [n];
      assert n in multiset(b);
      var i :| 0 <= i < |b| && b[i] == n;
      TakenOut(b, i, key);
      CountIgnoresOrder(a[..|a| - 1], b[..i] + b[i + 1..], key);
    }
  }

  lemma TakenOut(b: seq<Node>, i: nat, key: string)
    requires i < |b|
    ensures var rest := b[..i] + b[i + 1..];
            && multiset(rest) == multiset(b) - multiset{b[i]}
            && Count(b, key) == Count(rest, key) + if Key(b[i]) == key then 1 else 0
  {
    hide Key, Count;
    assert b == b[..i] + [b[i]] + b[i + 1..];
    CountAppend(b[..i], b[i + 1..], key);
    CountAppend(b[..i] + [b[i]], b[i + 1..], key);
    CountGrows(b[..i], b[i], key);
  }

  /** Any listing of the nodes needs a layer for each node that shares a coordinate. */
  lemma EveryLayeringIsAsLarge(want: seq<Node>, layers: seq<seq<Node>>, key: string)
    requires IsLayering(want, layers)
    ensures Count(want, key) <= |layers|
  {
    LayersBoundCount(layers, key);
    CountIgnoresOrder(Flat(layers), want, key);
  }

  /** First fit uses as many layers as the largest number of wanted nodes that share a coordinate, and no
      listing of the nodes uses fewer. */
  lemma FirstFitIsOptimal(want: seq<Node>, layers: seq<seq<Node>>)
    requires Packed(want, layers)
    ensures forall key :: Count(want, key) <= |layers|
    ensures layers != [] ==> exists key :: Count(want, key) == |layers|
    ensures forall other :: IsLayering(want, other) ==> |layers| <= |other|
  {
    hide Key, IsLayering, Count;
    if layers != [] {
      var last := layers[|layers| - 1];
      var key := Key(last[0]);
      assert HasKey(last, key);
      assert Count(want, key) == |layers|;
      forall other | IsLayering(want, other) ensures |layers| <= |other| {
        EveryLayeringIsAsLarge(want, other, key);
      }
    }
  }
}
