/**
 The greedy pairing of an advisory's legacy ranges with an element's
 (legacyRangesDisagree, pipeline/affected_bounds.go).
 */
module LegacyRanges {
  import opened GoStrings

  datatype Range = Range(introduced: string, fixed: string, lastAffected: string)

  predicate SameUpper(e: Range, l: Range) {
    e.fixed == l.fixed && e.lastAffected == l.lastAffected
  }

  /** A legacy range pairs on its upper bounds, and on introduced where it states one. */
  predicate Pairs(e: Range, l: Range) {
    SameUpper(e, l) && (l.introduced != "" ==> l.introduced == e.introduced)
  }

  /** The first free element from i on that pairs with l. */
  function FirstFree(elem: seq<Range>, l: Range, used: set<nat>, i: nat): (r: Option<nat>)
    ensures r.Some? ==> i <= r.value < |elem| && r.value !in used && Pairs(elem[r.value], l)
    ensures r.Some? ==> forall k :: i <= k < r.value && k !in used ==> !Pairs(elem[k], l)
    ensures r.None? ==> forall k :: i <= k < |elem| && k !in used ==> !Pairs(elem[k], l)
    decreases |elem| - i
  {
    if i >= |elem| then None
    else if i !in used && Pairs(elem[i], l) then Some(i)
    else FirstFree(elem, l, used, i + 1)
  }

  predicate GreedyFails(elem: seq<Range>, legacy: seq<Range>, used: set<nat>) {
    legacy != [] &&
    match FirstFree(elem, legacy[0], used, 0)
    case None => true
    case Some(i) => GreedyFails(elem, legacy[1..], used + {i})
  }

  predicate Disagree(elem: seq<Range>, legacy: seq<Range>) {
    |elem| != |legacy| || GreedyFails(elem, legacy, {})
  }

  ghost function Used(used: array<bool>): set<nat>
    reads used
  {
    set i: nat | i < used.Length && used[i]
  }

  /** legacyRangesDisagree, with the source's mark array. */
  method LegacyRangesDisagree(elem: seq<Range>, legacy: seq<Range>) returns (r: bool)
    ensures r == Disagree(elem, legacy)
  {
    if |elem| != |legacy| {
      return true;
    }
    var used := new bool[|elem|](_ => false);
    assert Used(used) == {};
    assert legacy[0..] == legacy;
    for n := 0 to |legacy|
      invariant GreedyFails(elem, legacy, {}) == GreedyFails(elem, legacy[n..], Used(used))
    {
      assert legacy[n..][1..] == legacy[n + 1..];
      ghost var before := Used(used);
      var l := legacy[n];
      var paired := false;
      var i := 0;
      while i < |elem|
        invariant i <= |elem| && Used(used) == before && !paired
        invariant FirstFree(elem, l, before, 0) == FirstFree(elem, l, before, i)
      {
        if used[i] || !Pairs(elem[i], l) {
          i := i + 1;
          continue;
        }
        used[i] := true;
        paired := true;
        break;
      }
      if !paired {
        return true;
      }
      assert Used(used) == before + {i};
    }
    return false;
  }

  // ----- pairings -----

  /** p sends each legacy range to an element of its own, outside used, with the same upper bounds and with the
      same introduced bound where the legacy range states one. */
  ghost predicate Pairing(elem: seq<Range>, legacy: seq<Range>, used: set<nat>, p: seq<nat>) {
    && |p| == |legacy|
    && (forall i :: 0 <= i < |p| ==>
          && p[i] < |elem| && p[i] !in used
          && elem[p[i]].fixed == legacy[i].fixed && elem[p[i]].lastAffected == legacy[i].lastAffected
          && (legacy[i].introduced == "" || legacy[i].introduced == elem[p[i]].introduced))
    && (forall i, j :: 0 <= i < j < |p| ==> p[i] != p[j])
  }

  /** No disagreement is hidden: agreement comes with a one-to-one pairing of all the ranges. */
  lemma {:induction false} AgreementIsAPairing(elem: seq<Range>, legacy: seq<Range>, used: set<nat>)
    returns (p: seq<nat>)
    requires !GreedyFails(elem, legacy, used)
    ensures Pairing(elem, legacy, used, p)
  {
    if legacy == [] {
      p := [];
    } else {
      var i := FirstFree(elem, legacy[0], used, 0).value;
      var rest := AgreementIsAPairing(elem, legacy[1..], used + {i});
      p := [i] + rest;
      assert forall k :: 0 < k < |p| ==> p[k] == rest[k - 1] && legacy[k] == legacy[1..][k - 1];
    }
  }

  /** Every legacy range that states introduced comes before those of its upper bounds that do not. */
  ghost predicate StatedFirst(legacy: seq<Range>) {
    forall i, j :: 0 <= i < j < |legacy| && SameUpper(legacy[i], legacy[j]) && legacy[i].introduced == "" ==>
                     legacy[j].introduced == ""
  }

  /** A pairing for what is left can be changed to use the element the greedy choice takes. */
  lemma Exchange(elem: seq<Range>, legacy: seq<Range>, used: set<nat>, p: seq<nat>, i: nat) returns (q: seq<nat>)
    requires legacy != [] && StatedFirst(legacy) && Pairing(elem, legacy, used, p)
    requires i < |elem| && i !in used && Pairs(elem[i], legacy[0])
    ensures Pairing(elem, legacy, used, q) && q[0] == i
  {
    if k :| 0 <= k < |p| && p[k] == i {
      q := p[k := p[0]][0 := i];
      assert Pairs(elem[p[0]], legacy[0]) && Pairs(elem[p[k]], legacy[k]);
      assert k > 0 ==> SameUpper(legacy[0], legacy[k]);
    } else {
      q := p[0 := i];
    }
  }

  /** Where the stated ranges come first, the greedy pairing finds a pairing whenever there is one. */
  lemma {:induction false} GreedyFindsPairing(elem: seq<Range>, legacy: seq<Range>, used: set<nat>, p: seq<nat>)
    requires StatedFirst(legacy) && Pairing(elem, legacy, used, p)
    ensures !GreedyFails(elem, legacy, used)
  {
    if legacy != [] {
      assert Pairs(elem[p[0]], legacy[0]);
      var i := FirstFree(elem, legacy[0], used, 0).value;
      var q := Exchange(elem, legacy, used, p, i);
      assert forall k :: 0 <= k < |legacy| - 1 ==> legacy[1..][k] == legacy[k + 1] && q[1..][k] == q[k + 1];
      GreedyFindsPairing(elem, legacy[1..], used + {i}, q[1..]);
    }
  }

  ghost predicate Bijection(elem: seq<Range>, legacy: seq<Range>) {
    |elem| == |legacy| && exists p :: Pairing(elem, legacy, {}, p)
  }

  lemma AgreementImpliesBijection(elem: seq<Range>, legacy: seq<Range>)
    ensures !Disagree(elem, legacy) ==> Bijection(elem, legacy)
  {
    if !Disagree(elem, legacy) {
      var p := AgreementIsAPairing(elem, legacy, {});
    }
  }

  /** So on those lists, and in particular when no legacy range states introduced or all of them do,
      the ranges disagree exactly when no bijection pairs them. */
  lemma DisagreementIsExact(elem: seq<Range>, legacy: seq<Range>)
    requires StatedFirst(legacy)
    ensures Disagree(elem, legacy) <==> !Bijection(elem, legacy)
  {
    AgreementImpliesBijection(elem, legacy);
    if Bijection(elem, legacy) {
      var p :| Pairing(elem, legacy, {}, p);
      GreedyFindsPairing(elem, legacy, {}, p);
    }
  }

  // ----- the condition is exact -----

  /** The positions below n whose range states introduced, or those whose range does not. */
  function Positions(legacy: seq<Range>, n: nat, stated: bool): (r: seq<nat>)
    requires n <= |legacy|
    ensures forall k :: k in r <==> 0 <= k < n && (legacy[k].introduced != "") == stated
    ensures forall a, b :: 0 <= a < b < |r| ==> r[a] != r[b]
  {
    if n == 0 then []
    else Positions(legacy, n - 1, stated) + if (legacy[n - 1].introduced != "") == stated then [n - 1] else []
  }

  function StatedThenOthers(legacy: seq<Range>): (r: seq<nat>)
    ensures forall m :: 0 <= m < |r| ==> r[m] < |legacy|
    ensures forall k :: 0 <= k < |legacy| ==> k in r
    ensures forall a, b :: 0 <= a < b < |r| ==> r[a] != r[b]
  {
    var stated, others := Positions(legacy, |legacy|, true), Positions(legacy, |legacy|, false);
    assert forall m :: 0 <= m < |stated| ==> stated[m] in stated;
    assert forall m :: 0 <= m < |others| ==> others[m] in others;
    stated + others
  }

  lemma {:induction false} PositionsLength(legacy: seq<Range>, n: nat)
    requires n <= |legacy|
    ensures |Positions(legacy, n, true)| + |Positions(legacy, n, false)| == n
  {
    if n > 0 {
      PositionsLength(legacy, n - 1);
      PositionsStep(legacy, n, true);
      PositionsStep(legacy, n, false);
    }
    hide Positions;
  }

  lemma PositionsStep(legacy: seq<Range>, n: nat, stated: bool)
    requires 0 < n <= |legacy|
    ensures |Positions(legacy, n, stated)| ==
            |Positions(legacy, n - 1, stated)| + if (legacy[n - 1].introduced != "") == stated then 1 else 0
  {
  }

  /** Elements that copy the legacy ranges, those with an introduced bound in front. */
  function Copies(legacy: seq<Range>): (elem: seq<Range>)
    ensures |elem| == |StatedThenOthers(legacy)|
    ensures forall m :: 0 <= m < |elem| ==> elem[m] == legacy[StatedThenOthers(legacy)[m]]
  {
    var order := StatedThenOthers(legacy);
    seq(|order|, m requires 0 <= m < |order| => legacy[order[m]])
  }

  lemma CopiesPair(legacy: seq<Range>)
    ensures Bijection(Copies(legacy), legacy)
  {
    var order, elem := StatedThenOthers(legacy), Copies(legacy);
    PositionsLength(legacy, |legacy|);
    var p := seq(|legacy|, k requires 0 <= k < |legacy| => PositionOf(order, k));
    forall i, j | 0 <= i < j < |p| ensures p[i] != p[j] {
      assert order[p[i]] == i && order[p[j]] == j;
    }
    assert Pairing(elem, legacy, {}, p);
  }

  function PositionOf(s: seq<nat>, x: nat): (m: nat)
    requires x in s
    ensures m < |s| && s[m] == x
  {
    if s[0] == x then 0 else 1 + PositionOf(s[1..], x)
  }

  /** The greedy pairing itself, when it succeeds: each range has the first free element. */
  ghost predicate Greedy(elem: seq<Range>, legacy: seq<Range>, used: set<nat>, p: seq<nat>) {
    && Pairing(elem, legacy, used, p)
    && forall k, m :: 0 <= k < |p| && 0 <= m < p[k] && Pairs(elem[m], legacy[k]) && m !in used ==>
         exists h :: 0 <= h < k && p[h] == m
  }

  lemma {:induction false} AgreementIsGreedy(elem: seq<Range>, legacy: seq<Range>, used: set<nat>) returns (p: seq<nat>)
    requires !GreedyFails(elem, legacy, used)
    ensures Greedy(elem, legacy, used, p)
  {
    if legacy == [] {
      p := [];
    } else {
      var i := FirstFree(elem, legacy[0], used, 0).value;
      var rest := AgreementIsGreedy(elem, legacy[1..], used + {i});
      p := [i] + rest;
      GreedyCons(elem, legacy, used, i, rest);
    }
  }

  lemma GreedyCons(elem: seq<Range>, legacy: seq<Range>, used: set<nat>, i: nat, rest: seq<nat>)
    requires legacy != [] && FirstFree(elem, legacy[0], used, 0) == Some(i)
    requires Greedy(elem, legacy[1..], used + {i}, rest)
    ensures Greedy(elem, legacy, used, [i] + rest)
  {
    hide FirstFree;
    var p := [i] + rest;
    assert forall k :: 0 < k < |p| ==> p[k] == rest[k - 1] && legacy[k] == legacy[1..][k - 1];
    forall k, m | 0 <= k < |p| && 0 <= m < p[k] && Pairs(elem[m], legacy[k]) && m !in used
      ensures exists h :: 0 <= h < k && p[h] == m
    {
      assert k > 0;
      if m == i {
        assert p[0] == m;
      } else {
        assert Pairs(elem[m], legacy[1..][k - 1]) && m < rest[k - 1];
        var h :| 0 <= h < k - 1 && rest[h] == m;
        assert p[h + 1] == m;
      }
    }
  }

  ghost function Image(p: seq<nat>, s: set<nat>): set<nat>
    requires forall k :: k in s ==> k < |p|
  {
    set k | k in s :: p[k]
  }

  lemma {:induction false} ImageSize(p: seq<nat>, s: set<nat>)
    requires forall k :: k in s ==> k < |p|
    ensures |Image(p, s)| <= |s|
    ensures (forall i, j :: 0 <= i < j < |p| ==> p[i] != p[j]) ==> |Image(p, s)| == |s|
  {
    if k :| k in s {
      ImageSize(p, s - {k});
      assert Image(p, s) == Image(p, s - {k}) + {p[k]};
      if forall i, j :: 0 <= i < j < |p| ==> p[i] != p[j] {
        assert p[k] !in Image(p, s - {k});
      }
    } else {
      assert Image(p, s) == {};
    }
  }

  lemma SubsetSize(a: set<nat>, b: set<nat>)
    requires a <= b
    ensures |a| <= |b|
  {
    assert b == a + (b - a);
  }

  /** The legacy ranges of l's upper bounds that state introduced, and the elements that do. */
  ghost function Demand(legacy: seq<Range>, l: Range): set<nat> {
    set k: nat | k < |legacy| && legacy[k].introduced != "" && SameUpper(legacy[k], l)
  }

  lemma SupplyMeetsDemand(legacy: seq<Range>, l: Range)
    ensures |Demand(Copies(legacy), l)| <= |Demand(legacy, l)|
  {
    var order, supply, demand := StatedThenOthers(legacy), Demand(Copies(legacy), l), Demand(legacy, l);
    forall x | x in Image(order, supply) ensures x in demand {
      var m :| m in supply && order[m] == x;
    }
    ImageSize(order, supply);
    SubsetSize(Image(order, supply), demand);
  }

  ghost predicate StatedInFront(elem: seq<Range>) {
    forall m, n :: 0 <= m < |elem| && 0 <= n < |elem| && elem[m].introduced != "" && elem[n].introduced == "" ==> m < n
  }

  /** When a wildcard gets an element without introduced, an earlier stated range has each that has one. */
  lemma EarlyTaker(legacy: seq<Range>, elem: seq<Range>, i: nat, p: seq<nat>, m: nat) returns (h: nat)
    requires i < |legacy| && legacy[i].introduced == ""
    requires forall k :: 0 <= k < i && SameUpper(legacy[k], legacy[i]) ==> legacy[k].introduced != ""
    requires StatedInFront(elem) && Greedy(elem, legacy, {}, p) && elem[p[i]].introduced == ""
    requires m in Demand(elem, legacy[i])
    ensures h < i && p[h] == m && h in Demand(legacy, legacy[i])
  {
    assert m < p[i];
    assert Pairs(elem[m], legacy[i]);
    h :| 0 <= h < i && p[h] == m;
    assert Pairs(elem[p[h]], legacy[h]);
  }

  /** A stated range before i, of i's upper bounds, has the element m. */
  ghost predicate TakenBefore(legacy: seq<Range>, i: nat, p: seq<nat>, m: nat)
    requires i < |legacy| == |p|
  {
    exists h :: 0 <= h < i && p[h] == m && h in Demand(legacy, legacy[i])
  }

  lemma SupplyTakenEarly(legacy: seq<Range>, elem: seq<Range>, i: nat, j: nat, p: seq<nat>)
    requires i < j < |legacy| == |p| && j in Demand(legacy, legacy[i])
    requires forall m :: m in Demand(elem, legacy[i]) ==> TakenBefore(legacy, i, p, m)
    ensures |Demand(elem, legacy[i])| < |Demand(legacy, legacy[i])|
  {
    hide Demand;
    var supply, demand := Demand(elem, legacy[i]), Demand(legacy, legacy[i]);
    var early := set k | k in demand && k < i;
    forall m | m in supply ensures m in Image(p, early) {
      assert TakenBefore(legacy, i, p, m);
      var h :| 0 <= h < i && p[h] == m && h in demand;
      assert h in early;
    }
    ImageSize(p, early);
    SubsetSize(supply, Image(p, early));
    SubsetSize(early, demand - {j});
  }

  lemma GreedyLength(elem: seq<Range>, legacy: seq<Range>, p: seq<nat>)
    requires Greedy(elem, legacy, {}, p)
    ensures |p| == |legacy|
  {
  }

  /** The stated ranges of l's upper bounds take as many elements, and i one more if it takes a stated one. */
  lemma DemandTakesSupply(legacy: seq<Range>, elem: seq<Range>, i: nat, p: seq<nat>)
    requires Pairing(elem, legacy, {}, p) && i < |legacy| && legacy[i].introduced == ""
    ensures |Demand(legacy, legacy[i])| + (if elem[p[i]].introduced != "" then 1 else 0) <= |Demand(elem, legacy[i])|
  {
    var demand, supply := Demand(legacy, legacy[i]), Demand(elem, legacy[i]);
    StatedToStated(legacy, elem, p, demand);
    var takers := if elem[p[i]].introduced != "" then demand + {i} else demand;
    assert Pairs(elem[p[i]], legacy[i]);
    ImageSize(p, takers);
    SubsetSize(Image(p, takers), supply);
  }

  /** A wildcard takes a stated element some later stated range needs, and one of them goes without. */
  lemma CopiesDefeatGreedy(legacy: seq<Range>, i: nat, j: nat)
    requires i < j < |legacy| && SameUpper(legacy[i], legacy[j])
    requires legacy[i].introduced == "" && legacy[j].introduced != ""
    requires forall k :: 0 <= k < i && SameUpper(legacy[k], legacy[i]) ==> legacy[k].introduced != ""
    ensures GreedyFails(Copies(legacy), legacy, {})
  {
    hide Copies, GreedyFails, StatedThenOthers, Pairs;
    var elem := Copies(legacy);
    if !GreedyFails(elem, legacy, {}) {
      var p := AgreementIsGreedy(elem, legacy, {});
      SupplyMeetsDemand(legacy, legacy[i]);
      DemandTakesSupply(legacy, elem, i, p);
      if elem[p[i]].introduced == "" {
        CopiesStatedInFront(legacy);
        GreedyLength(elem, legacy, p);
        forall m | m in Demand(elem, legacy[i]) ensures TakenBefore(legacy, i, p, m) {
          var h := EarlyTaker(legacy, elem, i, p, m);
        }
        SupplyTakenEarly(legacy, elem, i, j, p);
      }
    }
  }

  lemma StatedToStated(legacy: seq<Range>, elem: seq<Range>, p: seq<nat>, demand: set<nat>)
    requires Pairing(elem, legacy, {}, p)
    requires forall k :: k in demand ==> k < |legacy| && legacy[k].introduced != ""
    ensures forall k :: k in demand ==> elem[p[k]].introduced != "" && SameUpper(elem[p[k]], legacy[k])
  {
    forall k | k in demand ensures elem[p[k]].introduced != "" && SameUpper(elem[p[k]], legacy[k]) {
      assert Pairs(elem[p[k]], legacy[k]);
    }
  }

  lemma CopiesStatedInFront(legacy: seq<Range>)
    ensures StatedInFront(Copies(legacy))
  {
    var stated, others := Positions(legacy, |legacy|, true), Positions(legacy, |legacy|, false);
    assert forall k :: 0 <= k < |stated| ==> stated[k] in stated;
    assert forall k :: 0 <= k < |others| ==> others[k] in others;
  }

  /** Some range states introduced after one of its upper bounds that does not; take the first such. */
  lemma FirstViolation(legacy: seq<Range>) returns (i: nat, j: nat)
    requires !StatedFirst(legacy)
    ensures i < j < |legacy| && SameUpper(legacy[i], legacy[j])
    ensures legacy[i].introduced == "" && legacy[j].introduced != ""
    ensures forall k :: 0 <= k < i && SameUpper(legacy[k], legacy[i]) ==> legacy[k].introduced != ""
  {
    i, j :| 0 <= i < j < |legacy| && SameUpper(legacy[i], legacy[j]) && legacy[i].introduced == ""
      && legacy[j].introduced != "";
    while exists k :: 0 <= k < i && SameUpper(legacy[k], legacy[i]) && legacy[k].introduced == ""
      invariant i < j < |legacy| && SameUpper(legacy[i], legacy[j])
      invariant legacy[i].introduced == "" && legacy[j].introduced != ""
      decreases i
    {
      var k :| 0 <= k < i && SameUpper(legacy[k], legacy[i]) && legacy[k].introduced == "";
      i := k;
    }
  }

  /** StatedFirst is the exact condition on the legacy ranges: with it the verdict is right for every
      element list, without it some list with a bijection is called a disagreement. */
  lemma StatedFirstIsExact(legacy: seq<Range>)
    ensures StatedFirst(legacy) <==> forall elem :: Disagree(elem, legacy) <==> !Bijection(elem, legacy)
  {
    if StatedFirst(legacy) {
      forall elem ensures Disagree(elem, legacy) <==> !Bijection(elem, legacy) {
        DisagreementIsExact(elem, legacy);
      }
    } else {
      var i, j := FirstViolation(legacy);
      CopiesPair(legacy);
      CopiesDefeatGreedy(legacy, i, j);
      assert Disagree(Copies(legacy), legacy) && Bijection(Copies(legacy), legacy);
    }
  }
}
