/** Runs of the artifact store: Put, Seed and the two halves of View by any number of callers, interleaved. */
module ViewRuns {
  import opened GoStrings

  type Key = (string, string)

  /** A stored artifact; no step changes one, Put stores a new version under its id. */
  datatype Stored = Stored(id: string, assessmentID: string, typ: string, payload: seq<bv8>)

  /** Where a view's sync.Once stands. */
  datatype Once<V> = Fresh | Running(caller: nat) | Done(value: V)

  /** A view object, with the version and the key it was made for. */
  datatype Cell<V> = Cell(version: nat, key: string, once: Once<V>, seeded: bool)

  /** A View between its unlock and its return: the version it picked and the view it holds. */
  datatype Pending = Pending(version: nat, key: string, cell: nat)

  /** versions are the artifacts stored so far and byID the current ones; ran lists the decodes begun. */
  datatype Sys<V> = Sys(versions: seq<Stored>, byID: map<string, nat>, cells: seq<Cell<V>>, views: map<Key, nat>,
                        pending: map<nat, Pending>, ran: seq<(nat, string)>)

  datatype Event<V> =
    | Put(a: Stored)
    | Seed(id: string, key: string, value: V)
    | SeedRefused(id: string, key: string)
    | Pick(caller: nat, assessmentID: string, typ: string, key: string, version: nat)
    | Miss(caller: nat, assessmentID: string, typ: string)
    | Begin(caller: nat)
    | Finish(caller: nat)
    | Return(caller: nat, value: V)

  function Without(m: map<Key, nat>, id: string): (r: map<Key, nat>)
    ensures forall k :: k in r <==> k in m && k.0 != id
    ensures forall k :: k in r ==> r[k] == m[k]
  {
    map k | k in m && k.0 != id :: m[k]
  }

  ghost predicate Current<V>(s: Sys<V>, n: nat) {
    n < |s.versions| && s.versions[n].id in s.byID && s.byID[s.versions[n].id] == n
  }

  function Init<V>(): Sys<V> {
    Sys([], map[], [], map[], map[], [])
  }

  /**
   One atomic step. decode is the one decode the callers of a key pass, and what a seeded value must equal,
   as the source demands of them.
   */
  ghost predicate Step<V>(decode: (string, seq<bv8>) -> V, s: Sys<V>, e: Event<V>, t: Sys<V>) {
    match e
    case Put(a) =>
      t == s.(versions := s.versions + [a], byID := s.byID[a.id := |s.versions|], views := Without(s.views, a.id))
    case Seed(id, key, value) =>
      && id in s.byID && (id, key) !in s.views && s.byID[id] < |s.versions|
      && value == decode(key, s.versions[s.byID[id]].payload)
      && t == s.(cells := s.cells + [Cell(s.byID[id], key, Done(value), true)],
                 views := s.views[(id, key) := |s.cells|])
    case SeedRefused(id, key) => (id !in s.byID || (id, key) in s.views) && t == s
    case Miss(_, assessmentID, typ) =>
      && (forall n: nat :: Current(s, n) ==> s.versions[n].assessmentID != assessmentID || s.versions[n].typ != typ)
      && t == s
    case Pick(caller, assessmentID, typ, key, n) =>
      && caller !in s.pending && Current(s, n)
      && s.versions[n].assessmentID == assessmentID && s.versions[n].typ == typ
      && var k := (s.versions[n].id, key);
         if k in s.views then t == s.(pending := s.pending[caller := Pending(n, key, s.views[k])])
         else t == s.(cells := s.cells + [Cell(n, key, Fresh, false)], views := s.views[k := |s.cells|],
                      pending := s.pending[caller := Pending(n, key, |s.cells|)])
    case Begin(caller) =>
      && caller in s.pending && s.pending[caller].cell < |s.cells|
      && var c := s.pending[caller].cell;
         s.cells[c].once == Fresh
         && t == s.(cells := s.cells[c := s.cells[c].(once := Running(caller))],
                    ran := s.ran + [(s.pending[caller].version, s.pending[caller].key)])
    case Finish(caller) =>
      && caller in s.pending && s.pending[caller].cell < |s.cells| && s.pending[caller].version < |s.versions|
      && var p := s.pending[caller];
         s.cells[p.cell].once == Running(caller)
         && var value := decode(p.key, s.versions[p.version].payload);
            t == s.(cells := s.cells[p.cell := s.cells[p.cell].(once := Done(value))])
    case Return(caller, value) =>
      && caller in s.pending && s.pending[caller].cell < |s.cells|
      && s.cells[s.pending[caller].cell].once == Done(value)
      && t == s.(pending := s.pending - {caller})
  }

  // ----- what every state satisfies -----

  ghost predicate CurrentsOk<V>(s: Sys<V>) {
    forall id :: id in s.byID ==> s.byID[id] < |s.versions| && s.versions[s.byID[id]].id == id
  }

  /** No view in the map belongs to a replaced artifact. */
  ghost predicate ViewOk<V>(s: Sys<V>, k: Key)
    requires k in s.views
  {
    && s.views[k] < |s.cells| && k.0 in s.byID
    && s.cells[s.views[k]].version == s.byID[k.0] && s.cells[s.views[k]].key == k.1
  }

  /** A view whose decode is over holds the decode of its version; that of a current version is in the map. */
  ghost predicate CellOk<V>(decode: (string, seq<bv8>) -> V, s: Sys<V>, c: nat)
    requires c < |s.cells|
  {
    var cell := s.cells[c];
    && cell.version < |s.versions|
    && (cell.once.Done? ==> cell.once.value == decode(cell.key, s.versions[cell.version].payload))
    && (cell.seeded ==> cell.once.Done?)
    && (cell.once.Running? ==> cell.once.caller in s.pending && s.pending[cell.once.caller].cell == c)
    && (Current(s, cell.version) ==>
          (s.versions[cell.version].id, cell.key) in s.views && s.views[(s.versions[cell.version].id, cell.key)] == c)
    && ((cell.version, cell.key) in s.ran <==> !cell.once.Fresh? && !cell.seeded)
  }

  ghost predicate PendingOk<V>(s: Sys<V>, caller: nat)
    requires caller in s.pending
  {
    var p := s.pending[caller];
    p.cell < |s.cells| && p.version < |s.versions| && s.cells[p.cell].version == p.version
      && s.cells[p.cell].key == p.key
  }

  /** Two views never serve the same version and key. */
  ghost predicate CellsDiffer<V>(s: Sys<V>) {
    forall c, d :: 0 <= c < d < |s.cells| ==>
      s.cells[c].version != s.cells[d].version || s.cells[c].key != s.cells[d].key
  }

  ghost predicate RanOk<V>(s: Sys<V>) {
    && (forall i, j :: 0 <= i < j < |s.ran| ==> s.ran[i] != s.ran[j])
    && (forall r :: r in s.ran ==> exists c :: 0 <= c < |s.cells| && (s.cells[c].version, s.cells[c].key) == r)
  }

  ghost predicate Inv<V>(decode: (string, seq<bv8>) -> V, s: Sys<V>) {
    && CurrentsOk(s) && CellsDiffer(s) && RanOk(s)
    && (forall k :: k in s.views ==> ViewOk(s, k))
    && (forall c :: 0 <= c < |s.cells| ==> CellOk(decode, s, c))
    && (forall caller :: caller in s.pending ==> PendingOk(s, caller))
  }

  lemma InvAtStart<V>(decode: (string, seq<bv8>) -> V)
    ensures Inv(decode, Init())
  {
  }

  lemma PutKeepsInv<V>(decode: (string, seq<bv8>) -> V, s: Sys<V>, a: Stored, t: Sys<V>)
    requires Inv(decode, s) && Step(decode, s, Put(a), t)
    ensures Inv(decode, t)
  {
    hide Without;
    forall k ensures k in t.views <==> k in s.views && k.0 != a.id {
      InWithout(s.views, a.id, k);
    }
    forall k | k in t.views ensures ViewOk(t, k) {
      InWithout(s.views, a.id, k);
      assert ViewOk(s, k);
    }
    forall c | 0 <= c < |t.cells| ensures CellOk(decode, t, c) {
      assert CellOk(decode, s, c);
      InWithout(s.views, a.id, (t.versions[t.cells[c].version].id, t.cells[c].key));
    }
    forall caller | caller in t.pending ensures PendingOk(t, caller) {
      assert PendingOk(s, caller);
    }
  }

  lemma InWithout(m: map<Key, nat>, id: string, k: Key)
    ensures k in Without(m, id) <==> k in m && k.0 != id
    ensures k in Without(m, id) ==> Without(m, id)[k] == m[k]
  {
  }

  /** A view is made: by Seed, or by the first Pick of a version and key. */
  lemma NewCellKeepsInv<V>(decode: (string, seq<bv8>) -> V, s: Sys<V>, cell: Cell<V>, t: Sys<V>)
    requires Inv(decode, s) && Current(s, cell.version) && (s.versions[cell.version].id, cell.key) !in s.views
    requires cell.seeded ==> cell.once == Done(decode(cell.key, s.versions[cell.version].payload))
    requires !cell.seeded ==> cell.once == Fresh
    requires t == s.(cells := s.cells + [cell], views := s.views[(s.versions[cell.version].id, cell.key) := |s.cells|])
    ensures Inv(decode, t)
  {
    hide RanOk, CellOk, ViewOk, PendingOk, Current, CellsDiffer;
    NewCellCells(decode, s, cell, t);
    RanStays(s, t);
    forall l | l in t.views ensures ViewOk(t, l) {
      NewCellViews(s, cell, t, l);
    }
    forall caller | caller in t.pending ensures PendingOk(t, caller) {
      NewCellPending(s, cell, t, caller);
    }
  }

  lemma NewCellPending<V>(s: Sys<V>, cell: Cell<V>, t: Sys<V>, caller: nat)
    requires t.cells == s.cells + [cell] && t.versions == s.versions && t.pending == s.pending
    requires caller in s.pending && PendingOk(s, caller)
    ensures PendingOk(t, caller)
  {
  }

  lemma NewCellViews<V>(s: Sys<V>, cell: Cell<V>, t: Sys<V>, l: Key)
    requires Current(s, cell.version) && (l in s.views ==> ViewOk(s, l)) && l in t.views
    requires t == s.(cells := s.cells + [cell], views := s.views[(s.versions[cell.version].id, cell.key) := |s.cells|])
    ensures ViewOk(t, l)
  {
  }

  lemma NewCellCells<V>(decode: (string, seq<bv8>) -> V, s: Sys<V>, cell: Cell<V>, t: Sys<V>)
    requires CellsDiffer(s) && RanOk(s) && forall c :: 0 <= c < |s.cells| ==> CellOk(decode, s, c)
    requires Current(s, cell.version) && (s.versions[cell.version].id, cell.key) !in s.views
    requires cell.seeded ==> cell.once == Done(decode(cell.key, s.versions[cell.version].payload))
    requires !cell.seeded ==> cell.once == Fresh
    requires t == s.(cells := s.cells + [cell], views := s.views[(s.versions[cell.version].id, cell.key) := |s.cells|])
    ensures CellsDiffer(t) && forall c :: 0 <= c < |t.cells| ==> CellOk(decode, t, c)
  {
    hide RanOk;
    var n := |s.cells|;
    assert t.cells[n] == cell && forall c :: 0 <= c < n ==> t.cells[c] == s.cells[c];
    forall c | 0 <= c < n
      ensures CellOk(decode, t, c) && (s.cells[c].version != cell.version || s.cells[c].key != cell.key) {
      assert CellOk(decode, s, c);
    }
    NewCellRan(s, cell.version, cell.key);
    assert CellOk(decode, t, n);
  }

  lemma NewCellRan<V>(s: Sys<V>, version: nat, key: string)
    requires RanOk(s) && forall c :: 0 <= c < |s.cells| ==> s.cells[c].version != version || s.cells[c].key != key
    ensures (version, key) !in s.ran
  {
  }

  /** A caller comes to hold the view of the version it picked. */
  lemma HoldKeepsInv<V>(decode: (string, seq<bv8>) -> V, s: Sys<V>, caller: nat, p: Pending, t: Sys<V>)
    requires Inv(decode, s) && caller !in s.pending && t == s.(pending := s.pending[caller := p])
    requires p.cell < |s.cells| && s.cells[p.cell].version == p.version && s.cells[p.cell].key == p.key
    ensures Inv(decode, t)
  {
    forall c | 0 <= c < |t.cells| ensures CellOk(decode, t, c) {
      assert CellOk(decode, s, c);
    }
    forall k | k in t.views ensures ViewOk(t, k) {
      assert ViewOk(s, k);
    }
    forall x | x in t.pending ensures PendingOk(t, x) {
      assert CellOk(decode, s, p.cell);
      assert x != caller ==> PendingOk(s, x);
    }
  }

  lemma PickKeepsInv<V>(decode: (string, seq<bv8>) -> V, s: Sys<V>, e: Event<V>, t: Sys<V>)
    requires e.Pick? && Inv(decode, s) && Step(decode, s, e, t)
    ensures Inv(decode, t)
  {
    hide Inv, CurrentsOk;
    var k := (s.versions[e.version].id, e.key);
    if k in s.views {
      ViewIsOk(decode, s, k);
      HoldKeepsInv(decode, s, e.caller, Pending(e.version, e.key, s.views[k]), t);
    } else {
      var mid := s.(cells := s.cells + [Cell(e.version, e.key, Fresh, false)], views := s.views[k := |s.cells|]);
      NewCellKeepsInv(decode, s, Cell(e.version, e.key, Fresh, false), mid);
      HoldKeepsInv(decode, mid, e.caller, Pending(e.version, e.key, |s.cells|), t);
    }
  }

  lemma ViewIsOk<V>(decode: (string, seq<bv8>) -> V, s: Sys<V>, k: Key)
    requires Inv(decode, s) && k in s.views
    ensures ViewOk(s, k)
  {
  }

  /** A step that only moves views on leaves everything but the views themselves as it was. */
  lemma MovedOn<V>(s: Sys<V>, t: Sys<V>)
    requires |t.cells| == |s.cells| && t.versions == s.versions && t.byID == s.byID && t.views == s.views
             && t.pending == s.pending
    requires forall c :: 0 <= c < |s.cells| ==>
             t.cells[c].version == s.cells[c].version && t.cells[c].key == s.cells[c].key
    requires CurrentsOk(s) && CellsDiffer(s)
    requires forall k :: k in s.views ==> ViewOk(s, k)
    requires forall x :: x in s.pending ==> PendingOk(s, x)
    ensures CurrentsOk(t) && CellsDiffer(t)
    ensures forall k :: k in t.views ==> ViewOk(t, k)
    ensures forall x :: x in t.pending ==> PendingOk(t, x)
  {
    forall k | k in t.views ensures ViewOk(t, k) {
      assert ViewOk(s, k);
    }
    forall x | x in t.pending ensures PendingOk(t, x) {
      assert PendingOk(s, x);
    }
  }

  /** The decodes begun still belong to views. */
  lemma RanStays<V>(s: Sys<V>, t: Sys<V>)
    requires RanOk(s) && t.ran == s.ran && |s.cells| <= |t.cells|
    requires forall c :: 0 <= c < |s.cells| ==>
             t.cells[c].version == s.cells[c].version && t.cells[c].key == s.cells[c].key
    ensures RanOk(t)
  {
    forall r | r in t.ran ensures exists c :: 0 <= c < |t.cells| && (t.cells[c].version, t.cells[c].key) == r {
      var c :| 0 <= c < |s.cells| && (s.cells[c].version, s.cells[c].key) == r;
      assert (t.cells[c].version, t.cells[c].key) == r;
    }
  }

  lemma BeginKeepsInv<V>(decode: (string, seq<bv8>) -> V, s: Sys<V>, caller: nat, t: Sys<V>)
    requires Inv(decode, s) && Step(decode, s, Begin(caller), t)
    ensures Inv(decode, t)
  {
    hide ViewOk, CurrentsOk, Without;
    var p := s.pending[caller];
    var r := (p.version, p.key);
    assert PendingOk(s, caller) && CellOk(decode, s, p.cell);
    MovedOn(s, t);
    RanStays(s, t.(ran := s.ran));
    assert (t.cells[p.cell].version, t.cells[p.cell].key) == r;
    forall c | 0 <= c < |t.cells| ensures CellOk(decode, t, c) {
      assert CellOk(decode, s, c);
      assert (s.cells[c].version, s.cells[c].key) == r ==> c == p.cell;
    }
  }

  lemma FinishKeepsInv<V>(decode: (string, seq<bv8>) -> V, s: Sys<V>, caller: nat, t: Sys<V>)
    requires Inv(decode, s) && Step(decode, s, Finish(caller), t)
    ensures Inv(decode, t)
  {
    hide ViewOk, CurrentsOk, CellsDiffer, RanOk, Without;
    var p := s.pending[caller];
    assert PendingOk(s, caller) && CellOk(decode, s, p.cell);
    MovedOn(s, t);
    RanStays(s, t);
    forall c | 0 <= c < |t.cells| ensures CellOk(decode, t, c) {
      assert CellOk(decode, s, c);
    }
  }

  lemma ReturnKeepsInv<V>(decode: (string, seq<bv8>) -> V, s: Sys<V>, caller: nat, value: V, t: Sys<V>)
    requires Inv(decode, s) && Step(decode, s, Return(caller, value), t)
    ensures Inv(decode, t)
  {
    forall c | 0 <= c < |t.cells| ensures CellOk(decode, t, c) {
      assert CellOk(decode, s, c);
    }
    forall k | k in t.views ensures ViewOk(t, k) {
      assert ViewOk(s, k);
    }
    forall x | x in t.pending ensures PendingOk(t, x) {
      assert PendingOk(s, x);
    }
  }

  lemma SeedIsCurrent<V>(decode: (string, seq<bv8>) -> V, s: Sys<V>, id: string)
    requires Inv(decode, s) && id in s.byID
    ensures s.byID[id] < |s.versions| && Current(s, s.byID[id]) && s.versions[s.byID[id]].id == id
  {
  }

  lemma StepKeepsInv<V>(decode: (string, seq<bv8>) -> V, s: Sys<V>, e: Event<V>, t: Sys<V>)
    requires Inv(decode, s) && Step(decode, s, e, t)
    ensures Inv(decode, t)
  {
    hide Inv;
    match e
    case Put(a) => PutKeepsInv(decode, s, a, t);
    case Seed(id, key, value) =>
      SeedIsCurrent(decode, s, id);
      NewCellKeepsInv(decode, s, Cell(s.byID[id], key, Done(value), true), t);
    case SeedRefused(_, _) =>
    case Miss(_, _, _) =>
    case Pick(_, _, _, _, _) => PickKeepsInv(decode, s, e, t);
    case Begin(caller) => BeginKeepsInv(decode, s, caller, t);
    case Finish(caller) => FinishKeepsInv(decode, s, caller, t);
    case Return(caller, value) => ReturnKeepsInv(decode, s, caller, value, t);
  }

  // ----- runs -----

  ghost predicate IsRun<V>(decode: (string, seq<bv8>) -> V, run: seq<Sys<V>>, events: seq<Event<V>>) {
    && |run| == |events| + 1 && run[0] == Init()
    && forall i :: 0 <= i < |events| ==> Step(decode, run[i], events[i], run[i + 1])
  }

  lemma {:induction false} RunKeepsInv<V>(decode: (string, seq<bv8>) -> V, run: seq<Sys<V>>, events: seq<Event<V>>,
                                          i: nat)
    requires IsRun(decode, run, events) && i < |run|
    ensures Inv(decode, run[i])
  {
    hide Inv, Step;
    if i == 0 {
      InvAtStart(decode);
    } else {
      RunKeepsInv(decode, run, events, i - 1);
      StepKeepsInv(decode, run[i - 1], events[i - 1], run[i]);
    }
  }

  /** In every state of every run: no view in the map belongs to a replaced artifact; the decode of a stored
      version under a key has begun at most once, and never when it was seeded. */
  lemma DecodedAtMostOnce<V>(decode: (string, seq<bv8>) -> V, run: seq<Sys<V>>, events: seq<Event<V>>, i: nat)
    requires IsRun(decode, run, events) && i < |run|
    ensures forall j, k :: 0 <= j < k < |run[i].ran| ==> run[i].ran[j] != run[i].ran[k]
    ensures forall c :: 0 <= c < |run[i].cells| && run[i].cells[c].seeded ==>
              (run[i].cells[c].version, run[i].cells[c].key) !in run[i].ran
    ensures forall k :: k in run[i].views ==> ViewOk(run[i], k)
  {
    hide Step;
    RunKeepsInv(decode, run, events, i);
    forall c | 0 <= c < |run[i].cells| && run[i].cells[c].seeded
      ensures (run[i].cells[c].version, run[i].cells[c].key) !in run[i].ran
    {
      assert CellOk(decode, run[i], c);
    }
  }

  /** The step at which a pending View picked its artifact. */
  ghost predicate PickedAt<V>(run: seq<Sys<V>>, events: seq<Event<V>>, i: nat, caller: nat, p: Pending)
  {
    && i < |events| && i < |run| && events[i].Pick? && events[i].caller == caller
    && events[i].version == p.version && events[i].key == p.key
    && Current(run[i], p.version)
    && run[i].versions[p.version].assessmentID == events[i].assessmentID
    && run[i].versions[p.version].typ == events[i].typ
  }

  lemma VersionsStay<V>(decode: (string, seq<bv8>) -> V, s: Sys<V>, e: Event<V>, t: Sys<V>)
    requires Step(decode, s, e, t)
    ensures s.versions <= t.versions
    ensures forall x :: x in t.pending && !(e.Pick? && e.caller == x) ==> x in s.pending && s.pending[x] == t.pending[x]
    ensures e.Pick? && e.caller in t.pending ==>
            t.pending[e.caller].version == e.version && t.pending[e.caller].key == e.key
  {
  }

  lemma {:induction false} PendingWasPicked<V>(decode: (string, seq<bv8>) -> V, run: seq<Sys<V>>, events: seq<Event<V>>,
                                               j: nat, caller: nat)
    returns (i: nat)
    requires IsRun(decode, run, events) && j < |run| && caller in run[j].pending
    ensures i < j && PickedAt(run, events, i, caller, run[j].pending[caller])
    ensures run[i].versions <= run[j].versions
    decreases j
  {
    assert j > 0;
    assert Step(decode, run[j - 1], events[j - 1], run[j]);
    VersionsStay(decode, run[j - 1], events[j - 1], run[j]);
    if events[j - 1].Pick? && events[j - 1].caller == caller {
      i := j - 1;
    } else {
      i := PendingWasPicked(decode, run, events, j - 1, caller);
    }
  }

  /**
   In every run, what a View returns is the decode of the payload held by the artifact it picked, of the
   asked assessment and type and current when it picked it, whatever was put and seeded in between.
   */
  lemma ViewReturnsWhatItPicked<V>(decode: (string, seq<bv8>) -> V, run: seq<Sys<V>>, events: seq<Event<V>>, j: nat)
    returns (i: nat)
    requires IsRun(decode, run, events) && j < |events| && events[j].Return?
    ensures i < j && i < |run| && events[i].Pick? && events[i].caller == events[j].caller
    ensures Current(run[i], events[i].version)
    ensures run[i].versions[events[i].version].assessmentID == events[i].assessmentID
    ensures run[i].versions[events[i].version].typ == events[i].typ
    ensures events[j].value == decode(events[i].key, run[i].versions[events[i].version].payload)
  {
    hide Without;
    RunKeepsInv(decode, run, events, j);
    assert Step(decode, run[j], events[j], run[j + 1]);
    var caller := events[j].caller;
    i := PendingWasPicked(decode, run, events, j, caller);
    assert PendingOk(run[j], caller) && CellOk(decode, run[j], run[j].pending[caller].cell);
  }

  /** A View that has picked is never stuck: it can return, or decode, or the caller that is decoding can finish. */
  lemma NeverStuck<V>(decode: (string, seq<bv8>) -> V, s: Sys<V>, caller: nat) returns (e: Event<V>, t: Sys<V>)
    requires Inv(decode, s) && caller in s.pending
    ensures Step(decode, s, e, t)
    ensures e == Begin(caller) || (e.Return? && e.caller == caller)
         || (e.Finish? && e.caller in s.pending && s.pending[e.caller].cell == s.pending[caller].cell)
  {
    hide Without;
    assert PendingOk(s, caller);
    var c := s.pending[caller].cell;
    assert CellOk(decode, s, c);
    match s.cells[c].once
    case Fresh =>
      e := Begin(caller);
      t := s.(cells := s.cells[c := s.cells[c].(once := Running(caller))],
              ran := s.ran + [(s.pending[caller].version, s.pending[caller].key)]);
    case Running(runner) =>
      assert PendingOk(s, runner);
      var p := s.pending[runner];
      e := Finish(runner);
      t := s.(cells := s.cells[p.cell := s.cells[p.cell].(once := Done(decode(p.key, s.versions[p.version].payload)))]);
    case Done(value) =>
      e := Return(caller, value);
      t := s.(pending := s.pending - {caller});
  }
}
