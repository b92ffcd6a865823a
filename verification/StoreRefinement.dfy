/** The store's methods take the steps its runs are made of (artifact/store.go). */
module StoreRefinement {
  import opened GoStrings
  import M = MemStore
  import opened ViewRuns

  function StoredOf(r: M.Record): Stored {
    Stored(r.id, r.assessmentID, r.typ, r.payload)
  }

  /** A view's value, once its decode has run. */
  function Shown<V>(once: Once<V>): Option<V> {
    match once
    case Done(value) => Some(value)
    case _ => None
  }

  ghost predicate MirrorsRecord<V>(contents: map<string, M.Record>, s: Sys<V>, id: string)
    requires id in contents && id in s.byID
  {
    s.byID[id] < |s.versions| && s.versions[s.byID[id]] == StoredOf(contents[id]) && contents[id].id == id
  }

  ghost predicate MirrorsView<V>(views: map<Key, Option<V>>, s: Sys<V>, k: Key)
    requires k in views && k in s.views
  {
    s.views[k] < |s.cells| && !s.cells[s.views[k]].once.Running? && Shown(s.cells[s.views[k]].once) == views[k]
  }

  /** s is the state of a store with these contents and views, no decode running. */
  ghost predicate Mirrors<V>(contents: map<string, M.Record>, views: map<Key, Option<V>>, s: Sys<V>) {
    && contents.Keys == s.byID.Keys && views.Keys == s.views.Keys
    && (forall id :: id in contents ==> MirrorsRecord(contents, s, id))
    && (forall k :: k in views ==> MirrorsView(views, s, k))
  }

  /** A stretch of a run. */
  ghost predicate IsPath<V>(decode: (string, seq<bv8>) -> V, path: seq<Sys<V>>, events: seq<Event<V>>) {
    && |path| == |events| + 1
    && forall i :: 0 <= i < |events| ==> Step(decode, path[i], events[i], path[i + 1])
  }

  /** No two views of the map share a cell. */
  lemma ViewsDiffer<V>(decode: (string, seq<bv8>) -> V, s: Sys<V>, k: Key, l: Key)
    requires Inv(decode, s) && k in s.views && l in s.views && s.views[k] == s.views[l]
    ensures k == l
  {
    assert ViewOk(s, k) && ViewOk(s, l);
  }

  /** The first half: the artifact is picked, and its view made if there is none. */
  lemma ViewPicks<V>(decode: (string, seq<bv8>) -> V, contents: map<string, M.Record>, views: map<Key, Option<V>>,
                     s: Sys<V>, caller: nat, id: string, key: string) returns (e: Event<V>, t: Sys<V>)
    requires Mirrors(contents, views, s) && caller !in s.pending && id in contents
    ensures e == Pick(caller, contents[id].assessmentID, contents[id].typ, key, s.byID[id]) && Step(decode, s, e, t)
    ensures Mirrors(contents, if (id, key) in views then views else views[(id, key) := None], t)
    ensures (id, key) in t.views && t.pending == s.pending[caller := Pending(s.byID[id], key, t.views[(id, key)])]
    ensures t.versions == s.versions && t.byID == s.byID && t.ran == s.ran
  {
    var k := (id, key);
    assert MirrorsRecord(contents, s, id);
    e := Pick(caller, contents[id].assessmentID, contents[id].typ, key, s.byID[id]);
    if k in views {
      assert MirrorsView(views, s, k);
      t := s.(pending := s.pending[caller := Pending(s.byID[id], key, s.views[k])]);
    } else {
      t := s.(cells := s.cells + [Cell(s.byID[id], key, Fresh, false)], views := s.views[k := |s.cells|],
              pending := s.pending[caller := Pending(s.byID[id], key, |s.cells|)]);
    }
    var shown := if k in views then views else views[k := None];
    forall l | l in shown ensures MirrorsView(shown, t, l) {
      if l in views { assert MirrorsView(views, s, l); }
    }
    forall i | i in contents ensures MirrorsRecord(contents, t, i) {
      assert MirrorsRecord(contents, s, i);
    }
  }

  /** The decode, between its beginning and its end. */
  lemma ViewDecodes<V>(decode: (string, seq<bv8>) -> V, contents: map<string, M.Record>, views: map<Key, Option<V>>,
                       s: Sys<V>, caller: nat, id: string, key: string) returns (mid: Sys<V>, t: Sys<V>)
    requires Mirrors(contents, views, s) && Inv(decode, s) && id in contents && (id, key) in views
             && views[(id, key)].None?
    requires caller in s.pending && s.pending[caller] == Pending(s.byID[id], key, s.views[(id, key)])
    ensures Step(decode, s, Begin(caller), mid) && Step(decode, mid, Finish(caller), t)
    ensures Mirrors(contents, views[(id, key) := Some(decode(key, contents[id].payload))], t)
    ensures t.versions == s.versions && t.byID == s.byID && t.views == s.views && t.pending == s.pending
  {
    var k := (id, key);
    assert MirrorsRecord(contents, s, id) && MirrorsView(views, s, k);
    var c, value := s.views[k], decode(key, contents[id].payload);
    mid := s.(cells := s.cells[c := s.cells[c].(once := Running(caller))], ran := s.ran + [(s.byID[id], key)]);
    t := mid.(cells := mid.cells[c := mid.cells[c].(once := Done(value))]);
    var shown := views[k := Some(value)];
    forall l | l in shown ensures MirrorsView(shown, t, l) {
      assert MirrorsView(views, s, l);
      if l != k && s.views[l] == c { ViewsDiffer(decode, s, k, l); }
    }
    forall i | i in contents ensures MirrorsRecord(contents, t, i) {
      assert MirrorsRecord(contents, s, i);
    }
  }

  /** The second half's end. */
  lemma ViewReturns<V>(decode: (string, seq<bv8>) -> V, contents: map<string, M.Record>, views: map<Key, Option<V>>,
                       s: Sys<V>, caller: nat, k: Key, value: V) returns (t: Sys<V>)
    requires Mirrors(contents, views, s) && k in views && views[k] == Some(value)
    requires caller in s.pending && s.pending[caller].cell == s.views[k]
    ensures Step(decode, s, Return(caller, value), t) && Mirrors(contents, views, t)
    ensures t.pending == s.pending - {caller}
  {
    assert MirrorsView(views, s, k);
    t := s.(pending := s.pending - {caller});
    forall l | l in views ensures MirrorsView(views, t, l) {
      assert MirrorsView(views, s, l);
    }
    forall i | i in contents ensures MirrorsRecord(contents, t, i) {
      assert MirrorsRecord(contents, s, i);
    }
  }

  lemma PutSteps<V>(decode: (string, seq<bv8>) -> V, contents: map<string, M.Record>, views: map<Key, Option<V>>,
                    s: Sys<V>, r: M.Record) returns (t: Sys<V>)
    requires Mirrors(contents, views, s)
    ensures Step(decode, s, Put(StoredOf(r)), t) && Mirrors(contents[r.id := r], M.Without(views, r.id), t)
  {
    t := s.(versions := s.versions + [StoredOf(r)], byID := s.byID[r.id := |s.versions|],
            views := Without(s.views, r.id));
    var left := M.Without(views, r.id);
    forall k | k in left ensures MirrorsView(left, t, k) {
      assert MirrorsView(views, s, k);
    }
    var now := contents[r.id := r];
    forall i | i in now ensures MirrorsRecord(now, t, i) {
      assert i != r.id ==> MirrorsRecord(contents, s, i);
    }
  }

  lemma SeedSteps<V>(decode: (string, seq<bv8>) -> V, contents: map<string, M.Record>, views: map<Key, Option<V>>,
                     s: Sys<V>, id: string, key: string, value: V) returns (t: Sys<V>)
    requires Mirrors(contents, views, s) && id in contents && (id, key) !in views
    requires value == decode(key, contents[id].payload)
    ensures Step(decode, s, Seed(id, key, value), t) && Mirrors(contents, views[(id, key) := Some(value)], t)
  {
    assert MirrorsRecord(contents, s, id);
    t := s.(cells := s.cells + [Cell(s.byID[id], key, Done(value), true)], views := s.views[(id, key) := |s.cells|]);
    var shown := views[(id, key) := Some(value)];
    forall l | l in shown ensures MirrorsView(shown, t, l) {
      assert l in views ==> MirrorsView(views, s, l);
    }
    forall i | i in contents ensures MirrorsRecord(contents, t, i) {
      assert MirrorsRecord(contents, s, i);
    }
  }

  /** What is in s for a record is current, and nothing else is. */
  lemma CurrentIsStored<V>(contents: map<string, M.Record>, views: map<Key, Option<V>>, s: Sys<V>, n: nat)
    requires Mirrors(contents, views, s) && Current(s, n)
    ensures s.versions[n].id in contents && s.versions[n] == StoredOf(contents[s.versions[n].id])
  {
    assert MirrorsRecord(contents, s, s.versions[n].id);
  }

  /** A whole View by one caller: it picks, decodes when nothing has yet, and returns the decode. */
  ghost predicate IsView<V>(decode: (string, seq<bv8>) -> V, path: seq<Sys<V>>, events: seq<Event<V>>,
                            caller: nat, r: M.Record, key: string, decodes: bool)
  {
    var value := decode(key, r.payload);
    && IsPath(decode, path, events)
    && |events| == (if decodes then 4 else 2)
    && r.id in path[0].byID && events[0] == Pick(caller, r.assessmentID, r.typ, key, path[0].byID[r.id])
    && (decodes ==> events[1] == Begin(caller) && events[2] == Finish(caller))
    && events[|events| - 1] == Return(caller, value)
    && path[|events|].pending == path[0].pending
  }

  /** Begin, finish and return of a view nothing has decoded. */
  lemma ViewWorks<V>(decode: (string, seq<bv8>) -> V, contents: map<string, M.Record>, views: map<Key, Option<V>>,
                     s: Sys<V>, caller: nat, id: string, key: string) returns (begun: Sys<V>, done: Sys<V>, t: Sys<V>)
    requires Mirrors(contents, views, s) && Inv(decode, s) && id in contents
    requires (id, key) in views && views[(id, key)].None? && id in s.byID && (id, key) in s.views
    requires caller in s.pending && s.pending[caller] == Pending(s.byID[id], key, s.views[(id, key)])
    ensures Step(decode, s, Begin(caller), begun) && Step(decode, begun, Finish(caller), done)
    ensures Step(decode, done, Return(caller, decode(key, contents[id].payload)), t) && Inv(decode, t)
    ensures Mirrors(contents, views[(id, key) := Some(decode(key, contents[id].payload))], t)
    ensures t.pending == s.pending - {caller}
  {
    hide Step, Inv, Mirrors;
    var k, value := (id, key), decode(key, contents[id].payload);
    begun, done := ViewDecodes(decode, contents, views, s, caller, id, key);
    StepKeepsInv(decode, s, Begin(caller), begun);
    StepKeepsInv(decode, begun, Finish(caller), done);
    t := ViewReturns(decode, contents, views[k := Some(value)], done, caller, k, value);
    StepKeepsInv(decode, done, Return(caller, value), t);
  }

  lemma ViewSteps<V>(decode: (string, seq<bv8>) -> V, contents: map<string, M.Record>, views: map<Key, Option<V>>,
                     s: Sys<V>, caller: nat, id: string, key: string) returns (path: seq<Sys<V>>, events: seq<Event<V>>)
    requires Mirrors(contents, views, s) && Inv(decode, s) && caller !in s.pending && id in contents
    requires var k := (id, key); k in views && views[k].Some? ==> views[k].value == decode(key, contents[id].payload)
    ensures var k := (id, key); IsView(decode, path, events, caller, contents[id], key, !(k in views && views[k].Some?))
    ensures IsPath(decode, path, events) && path[0] == s && Inv(decode, path[|events|])
    ensures Mirrors(contents, views[(id, key) := Some(decode(key, contents[id].payload))], path[|events|])
  {
    hide Step, Inv, Mirrors, IsPath;
    var k, value := (id, key), decode(key, contents[id].payload);
    MirrorsNames(contents, views, s, id);
    var pick, picked := ViewPicks(decode, contents, views, s, caller, id, key);
    StepKeepsInv(decode, s, pick, picked);
    var shown := views[k := Some(value)];
    if k in views && views[k].Some? {
      assert shown == views;
      var t := ViewReturns(decode, contents, views, picked, caller, k, value);
      StepKeepsInv(decode, picked, Return(caller, value), t);
      path, events := [s, picked, t], [pick, Return(caller, value)];
      ShortPath(decode, s, pick, picked, events[1], t);
    } else {
      var made := if k in views then views else views[k := None];
      var begun, done, t := ViewWorks(decode, contents, made, picked, caller, id, key);
      assert made[k := Some(value)] == shown;
      path, events := [s, picked, begun, done, t], [pick, Begin(caller), Finish(caller), Return(caller, value)];
      LongPath(decode, path, events);
    }
  }

  lemma ShortPath<V>(decode: (string, seq<bv8>) -> V, s: Sys<V>, d: Event<V>, t: Sys<V>, e: Event<V>, u: Sys<V>)
    requires Step(decode, s, d, t) && Step(decode, t, e, u)
    ensures IsPath(decode, [s, t, u], [d, e])
  {
    hide Step;
  }

  lemma LongPath<V>(decode: (string, seq<bv8>) -> V, path: seq<Sys<V>>, events: seq<Event<V>>)
    requires |path| == 5 && |events| == 4
    requires Step(decode, path[0], events[0], path[1]) && Step(decode, path[1], events[1], path[2])
    requires Step(decode, path[2], events[2], path[3]) && Step(decode, path[3], events[3], path[4])
    ensures IsPath(decode, path, events)
  {
    hide Step;
  }

  lemma MirrorsNames<V>(contents: map<string, M.Record>, views: map<Key, Option<V>>, s: Sys<V>, id: string)
    requires Mirrors(contents, views, s) && id in contents
    ensures id in s.byID && contents[id].id == id
  {
    assert MirrorsRecord(contents, s, id);
  }

  // ----- the methods -----

  /** A new store is where every run begins. */
  method NewStore<V>(ghost decode: (string, seq<bv8>) -> V) returns (store: M.MemStore<V>, ghost s: Sys<V>)
    ensures store.Valid() && store.decode == decode && fresh(store)
    ensures s == Init() && Inv(decode, s) && Mirrors(store.Contents(), store.Views(), s)
  {
    store := new M.MemStore<V>(decode);
    s := Init();
    InvAtStart(decode);
  }

  /** Put is a Put step. */
  method PutStore<V>(store: M.MemStore<V>, a: M.Artifact, newID: string, now: nat, sha256: seq<bv8> -> string,
                     ghost s: Sys<V>)
    returns (ref: M.Ref, ghost t: Sys<V>)
    requires store.Valid() && store.Foreign(a) && Mirrors(store.Contents(), store.Views(), s)
    modifies store`byID, store`views, store`own, store`bytes, a`id, a`contentHash, a`createdAt
    ensures store.Valid() && ref == M.Ref(a.id, a.typ)
    ensures Step(store.decode, s, Put(StoredOf(a.Value())), t) && Mirrors(store.Contents(), store.Views(), t)
  {
    hide Step, Mirrors, M.MemStore.AllHeld, M.MemStore.AllFaithful, M.MemStore.Contents, M.MemStore.Views, M.Without;
    ghost var contents, views := store.Contents(), store.Views();
    ref := store.Put(a, newID, now, sha256);
    t := PutSteps(store.decode, contents, views, s, a.Value());
  }

  /** Seed is a Seed step, or a refused one. */
  method SeedStore<V>(store: M.MemStore<V>, id: string, key: string, v: V, ghost s: Sys<V>)
    returns (ok: bool, ghost t: Sys<V>)
    requires store.Valid() && Mirrors(store.Contents(), store.Views(), s)
    requires id in store.byID ==> v == store.decode(key, store.byID[id].payload[..])
    modifies store`views, store`cells
    ensures store.Valid() && Mirrors(store.Contents(), store.Views(), t)
    ensures Step(store.decode, s, if ok then Seed(id, key, v) else SeedRefused(id, key), t)
  {
    hide M.MemStore.AllHeld, M.MemStore.AllFaithful, M.MemStore.Views, MirrorsRecord, MirrorsView;
    ghost var contents, views := store.Contents(), store.Views();
    ok := store.Seed(id, key, v);
    if ok {
      t := SeedSteps(store.decode, contents, views, s, id, key, v);
    } else {
      t := s;
    }
  }

  /** View is a miss, or the steps of one caller's whole View. */
  method ViewStore<V>(store: M.MemStore<V>, assessmentID: string, typ: string, key: string, f: seq<bv8> -> V,
                      ghost s: Sys<V>, ghost caller: nat)
    returns (r: Option<V>, ghost path: seq<Sys<V>>, ghost events: seq<Event<V>>, ghost id: string)
    requires store.Valid() && Mirrors(store.Contents(), store.Views(), s)
    requires Inv(store.decode, s) && caller !in s.pending && forall p :: f(p) == store.decode(key, p)
    modifies store`views, store`cells, store.cells
    ensures store.Valid() && store.Contents() == old(store.Contents())
    ensures IsPath(store.decode, path, events) && path[0] == s && Inv(store.decode, path[|events|])
    ensures Mirrors(store.Contents(), store.Views(), path[|events|])
    ensures r.None? ==> events == [Miss(caller, assessmentID, typ)]
    ensures r.Some? ==>
              && id in store.Contents() && store.Contents()[id].assessmentID == assessmentID
              && store.Contents()[id].typ == typ
              && r == Some(store.decode(key, store.Contents()[id].payload))
              && var decodes := !((id, key) in old(store.Views()) && old(store.Views())[(id, key)].Some?);
                 IsView(store.decode, path, events, caller, store.Contents()[id], key, decodes)
  {
    hide M.MemStore.AllHeld, M.MemStore.AllFaithful, M.MemStore.Views, Mirrors, Inv, Step, IsView;
    ghost var contents, views := store.Contents(), store.Views();
    r, id := store.View(assessmentID, typ, key, f);
    if r.None? {
      NothingMatches(store.decode, contents, views, s, caller, assessmentID, typ);
      path, events := [s, s], [Miss(caller, assessmentID, typ)];
    } else {
      path, events := ViewSteps(store.decode, contents, views, s, caller, id, key);
    }
  }

  lemma NothingMatches<V>(decode: (string, seq<bv8>) -> V, contents: map<string, M.Record>, views: map<Key, Option<V>>,
                          s: Sys<V>, caller: nat, assessmentID: string, typ: string)
    requires Mirrors(contents, views, s)
    requires forall id :: id in contents ==> contents[id].assessmentID != assessmentID || contents[id].typ != typ
    ensures Step(decode, s, Miss(caller, assessmentID, typ), s)
  {
    hide Mirrors;
    forall n: nat | Current(s, n) ensures s.versions[n].assessmentID != assessmentID || s.versions[n].typ != typ {
      CurrentIsStored(contents, views, s, n);
    }
  }
}
