/** The in-memory artifact store and its decoded views, one call at a time (artifact/store.go). */
module MemStore {
  import opened GoStrings

  /** What one artifact says. */
  datatype Record = Record(id: string, assessmentID: string, typ: string, contentHash: string,
                           descriptor: string, producedBy: string, payload: seq<bv8>, createdAt: nat)

  datatype Ref = Ref(id: string, typ: string)

  class Artifact {
    var id: string
    var assessmentID: string
    var typ: string
    var contentHash: string
    var descriptor: string
    var producedBy: string
    var payload: array<bv8>
    /** Zero is the zero time. */
    var createdAt: nat

    ghost function Value(): Record
      reads this, payload
    {
      Record(id, assessmentID, typ, contentHash, descriptor, producedBy, payload[..], createdAt)
    }

    constructor (r: Record, payload: array<bv8>)
      ensures this.payload == payload && Value() == r.(payload := payload[..])
    {
      id, assessmentID, typ, contentHash := r.id, r.assessmentID, r.typ, r.contentHash;
      descriptor, producedBy, createdAt := r.descriptor, r.producedBy, r.createdAt;
      this.payload := payload;
    }

    /** What Put assigns to its caller's artifact. */
    method Stamp(newID: string, now: nat, sha256: seq<bv8> -> string)
      modifies this`id, this`contentHash, this`createdAt
      ensures id == (if old(id) == "" then newID else old(id))
      ensures contentHash == "sha256:" + sha256(payload[..])
      ensures createdAt == if old(createdAt) == 0 then now else old(createdAt)
    {
      if id == "" {
        id := newID;
      }
      contentHash := "sha256:" + sha256(payload[..]);
      if createdAt == 0 {
        createdAt := now;
      }
    }

    /** copyArtifact: the payload copied too. */
    method Copy() returns (c: Artifact)
      ensures fresh(c) && fresh(c.payload) && c.Value() == Value()
    {
      var bytes := new bv8[payload.Length](i requires 0 <= i < payload.Length reads this, payload => payload[i]);
      assert bytes[..] == payload[..];
      c := new Artifact(Record(id, assessmentID, typ, contentHash, descriptor, producedBy, [], createdAt), bytes);
    }
  }

  type Key = (string, string)

  /** A view; its value is there once its decode has run. */
  class SharedView<V> {
    var value: Option<V>
    ghost const key: Key

    constructor (ghost key: Key, value: Option<V>)
      ensures this.key == key && this.value == value
    {
      this.key := key;
      this.value := value;
    }
  }

  function Without<V>(m: map<Key, V>, id: string): (r: map<Key, V>)
    ensures forall k :: k in r <==> k in m && k.0 != id
    ensures forall k :: k in r ==> r[k] == m[k]
  {
    map k | k in m && k.0 != id :: m[k]
  }

  lemma InWithout<V>(m: map<Key, V>, id: string, k: Key)
    ensures k in Without(m, id) <==> k in m && k.0 != id
    ensures k in Without(m, id) ==> Without(m, id)[k] == m[k]
  {
  }

  class MemStore<V> {
    var byID: map<string, Artifact>
    var views: map<Key, SharedView<V>>
    /** The stored artifacts and their payloads, which no caller holds. */
    ghost var own: set<Artifact>
    ghost var bytes: set<array<bv8>>
    ghost var cells: set<SharedView<V>>
    /** What the decode passed under a key makes of a payload. */
    ghost const decode: (string, seq<bv8>) -> V

    ghost predicate Held(id: string)
      reads this`byID, this`own, this`bytes, own
    {
      id in byID && byID[id] in own && byID[id].payload in bytes && byID[id].id == id
    }

    ghost predicate AllHeld()
      reads this`byID, this`own, this`bytes, own
    {
      forall id :: id in byID ==> Held(id)
    }

    /** The view under k belongs to the stored artifact of its id, and holds nothing but its decode. */
    ghost predicate Faithful(k: Key)
      requires k in views
      reads this`byID, this`views, this`own, this`bytes, this`cells, own, bytes, cells
    {
      && views[k] in cells && views[k].key == k && Held(k.0)
      && (views[k].value.Some? ==> views[k].value.value == decode(k.1, byID[k.0].payload[..]))
    }

    ghost predicate AllFaithful()
      reads this`byID, this`views, this`own, this`bytes, this`cells, own, bytes, cells
    {
      forall k :: k in views ==> Faithful(k)
    }

    ghost predicate Valid()
      reads this`byID, this`views, this`own, this`bytes, this`cells, own, bytes, cells
    {
      AllHeld() && AllFaithful()
    }

    ghost function Contents(): (m: map<string, Record>)
      requires AllHeld()
      reads this`byID, this`own, this`bytes, own, bytes
      ensures m.Keys == byID.Keys
    {
      map id | id in byID :: assert Held(id); byID[id].Value()
    }

    /** The views by key, each with its value once its decode has run. */
    ghost function Views(): (m: map<Key, Option<V>>)
      requires AllFaithful()
      reads this`byID, this`views, this`own, this`bytes, this`cells, own, bytes, cells
      ensures m.Keys == views.Keys
    {
      map k | k in views :: assert Faithful(k); views[k].value
    }

    constructor (ghost decode: (string, seq<bv8>) -> V)
      ensures Valid() && Contents() == map[] && views == map[] && this.decode == decode
    {
      byID, views, own, bytes, cells := map[], map[], {}, {}, {};
      this.decode := decode;
    }

    /** a and its payload are not the store's. */
    ghost predicate Foreign(a: Artifact)
      reads this`own, this`bytes, a`payload
    {
      a !in own && a.payload !in bytes
    }

    /** Put: the caller's artifact gets its id, hash and time; a copy is stored and the views of the artifact
        it replaces go. */
    method Put(a: Artifact, newID: string, now: nat, sha256: seq<bv8> -> string) returns (ref: Ref)
      requires Valid() && Foreign(a)
      modifies this`byID, this`views, this`own, this`bytes, a`id, a`contentHash, a`createdAt
      ensures Valid() && Foreign(a)
      ensures a.id == (if old(a.id) == "" then newID else old(a.id))
      ensures a.contentHash == "sha256:" + sha256(a.payload[..])
      ensures a.createdAt == if old(a.createdAt) == 0 then now else old(a.createdAt)
      ensures ref == Ref(a.id, a.typ)
      ensures Contents() == old(Contents())[a.id := a.Value()]
      ensures views == Without(old(views), a.id) && Views() == Without(old(Views()), a.id)
    {
      hide Contents, Views, AllHeld, AllFaithful, Held, Faithful, Without;
      ghost var before, viewed := Contents(), Views();
      a.Stamp(newID, now, sha256);
      var cp := a.Copy();
      assert Contents() == before && Views() == viewed;
      Store(cp);
      return Ref(a.id, a.typ);
    }

    /** What Put does under the lock. */
    method Store(cp: Artifact)
      requires Valid() && Foreign(cp)
      modifies this`byID, this`views, this`own, this`bytes
      ensures Valid() && own == old(own) + {cp} && bytes == old(bytes) + {cp.payload}
      ensures Contents() == old(Contents())[cp.id := cp.Value()]
      ensures views == Without(old(views), cp.id) && Views() == Without(old(Views()), cp.id)
    {
      hide Artifact.Value, Without, Views, Contents, AllFaithful, AllHeld, Held, Faithful, Foreign;
      Enter(cp);
      DropStale(cp.id);
      ViewsDropped(cp.id);
    }

    /** The copy takes its place; the views of other artifacts stay faithful. */
    method Enter(cp: Artifact)
      requires Valid() && Foreign(cp)
      modifies this`byID, this`own, this`bytes
      ensures own == old(own) + {cp} && bytes == old(bytes) + {cp.payload}
      ensures AllHeld() && Contents() == old(Contents())[cp.id := cp.Value()]
      ensures forall k :: k in views && k.0 != cp.id ==> Faithful(k)
    {
      hide Artifact.Value, Contents;
      byID := byID[cp.id := cp];
      own, bytes := own + {cp}, bytes + {cp.payload};
      forall k | k in views && k.0 != cp.id ensures Faithful(k) {
        assert old(Faithful(k));
      }
      forall id | id in byID ensures Held(id) && (id != cp.id ==> byID[id] == old(byID[id])) {
        assert id != cp.id ==> old(Held(id));
      }
      ContentsEntered(cp);
    }

    twostate lemma ContentsEntered(cp: Artifact)
      requires old(AllHeld()) && AllHeld() && byID == old(byID)[cp.id := cp]
      requires forall a :: a in old(byID.Values) ==> a.Value() == old(a.Value())
      ensures Contents() == old(Contents())[cp.id := cp.Value()]
    {
      hide Held, Artifact.Value;
      forall id | id in byID && id != cp.id ensures Contents()[id] == old(Contents()[id]) {
        assert old(byID[id]) in old(byID.Values);
      }
    }

    twostate lemma ViewsDropped(id: string)
      requires old(AllFaithful()) && AllFaithful() && views == Without(old(views), id)
      requires forall k :: k in views ==> views[k].value == old(views[k].value)
      ensures Views() == Without(old(Views()), id)
    {
      hide Without, Faithful;
      forall k ensures k in views <==> k in old(views) && k.0 != id {
        InWithout(old(views), id, k);
        InWithout(old(Views()), id, k);
      }
    }

    method DropStale(id: string)
      requires forall k :: k in views && k.0 != id ==> Faithful(k)
      modifies this`views
      ensures views == Without(old(views), id) && AllFaithful()
    {
      hide Without;
      DropViews(id);
      forall k | k in views ensures Faithful(k) {
        InWithout(old(views), id, k);
        assert old(Faithful(k));
      }
    }

    method DropViews(id: string)
      modifies this`views
      ensures views == Without(old(views), id)
    {
      var left := views.Keys;
      ghost var was := views;
      while left != {}
        invariant left <= was.Keys
        invariant forall k :: k in views <==> k in was && (k in left || k.0 != id)
        invariant forall k :: k in views ==> views[k] == was[k]
        decreases |left|
      {
        var k :| k in left;
        left := left - {k};
        if k.0 == id {
          views := map l | l in views && l != k :: views[l];
        }
      }
    }

    /** Get: a copy, or nothing when the id is not stored. */
    method Get(id: string) returns (r: Artifact?)
      requires Valid()
      ensures r == null <==> id !in byID
      ensures r != null ==> fresh(r) && fresh(r.payload) && r.Value() == Contents()[id]
    {
      if id !in byID {
        return null;
      }
      assert Held(id);
      r := byID[id].Copy();
    }

    predicate Matches(id: string, assessmentID: string, typ: string)
      requires id in byID
      reads this`byID, byID[id]
    {
      byID[id].assessmentID == assessmentID && byID[id].typ == typ
    }

    method AddView(k: Key, value: Option<V>) returns (v: SharedView<V>)
      requires Valid() && k.0 in byID && k !in views
      requires value.Some? ==> value.value == decode(k.1, byID[k.0].payload[..])
      modifies this`views, this`cells
      ensures Valid() && fresh(v) && v.value == value
      ensures cells == old(cells) + {v} && views == old(views)[k := v]
      ensures Views() == old(Views())[k := value]
    {
      hide Views;
      v := new SharedView<V>(k, value);
      views := views[k := v];
      cells := cells + {v};
      assert Held(k.0);
      forall l | l in views ensures Faithful(l) {
        assert l != k ==> old(Faithful(l));
      }
      ViewAdded(k);
    }

    twostate lemma ViewAdded(k: Key)
      requires old(AllFaithful()) && AllFaithful() && k in views && views.Keys == old(views.Keys) + {k}
      requires forall l :: l in old(views) && l != k ==> views[l].value == old(views[l].value)
      ensures Views() == old(Views())[k := views[k].value]
    {
      hide Faithful;
      forall l | l in views && l != k ensures Views()[l] == old(Views()[l]) {
      }
    }

    /** The view under k, made empty when there is none. */
    method ViewFor(k: Key) returns (v: SharedView<V>)
      requires Valid() && k.0 in byID
      modifies this`views, this`cells
      ensures Valid() && v in cells && v.key == k
      ensures k in views && views == (if k in old(views) then old(views) else old(views)[k := v]) && views[k] == v
      ensures Views() == if k in old(views) then old(Views()) else old(Views())[k := None]
      ensures if k in old(views) then cells == old(cells) else fresh(v) && cells == old(cells) + {v} && v.value.None?
    {
      if k in views {
        assert Faithful(k);
        return views[k];
      }
      v := AddView(k, None);
      assert Faithful(k);
    }

    /** The decode of a view that has run, or runs now. */
    method Once(v: SharedView<V>, a: Artifact, f: seq<bv8> -> V) returns (value: V)
      requires Valid() && v.key in views && views[v.key] == v && v.key.0 in byID && byID[v.key.0] == a
      requires forall p :: f(p) == decode(v.key.1, p)
      modifies v
      ensures Valid() && v.value == Some(value) && value == decode(v.key.1, a.payload[..])
      ensures old(Views())[v.key].Some? ==> old(Views())[v.key] == Some(value)
      ensures Views() == old(Views())[v.key := Some(value)]
    {
      assert Faithful(v.key);
      if v.value.None? {
        v.value := Some(f(a.payload[..]));
      }
      forall l | l in views ensures Faithful(l) {
        assert old(Faithful(l));
      }
      return v.value.value;
    }

    /** View: an artifact of the type is picked, and its view under the key answers. */
    method View(assessmentID: string, typ: string, key: string, f: seq<bv8> -> V)
      returns (r: Option<V>, ghost id: string)
      requires Valid()
      requires forall p :: f(p) == decode(key, p)
      modifies this`views, this`cells, cells
      ensures Valid() && Contents() == old(Contents())
      ensures r.None? <==> forall i :: i in byID ==> byID[i].assessmentID != assessmentID || byID[i].typ != typ
      ensures r.None? ==> views == old(views)
      ensures r.Some? ==>
                && id in byID && byID[id].assessmentID == assessmentID && byID[id].typ == typ
                && r.value == f(byID[id].payload[..])
                && ((id, key) in old(Views()) && old(Views())[(id, key)].Some? ==> r == old(Views())[(id, key)])
      ensures Views() == if r.Some? then old(Views())[(id, key) := r] else old(Views())
      ensures forall k :: k in old(views) ==> k in views && views[k] == old(views[k])
    {
      hide AllFaithful, AllHeld, Contents, Views;
      var ids := set i | i in byID && Matches(i, assessmentID, typ);
      id := "";
      if ids == {} {
        assert forall i :: i in byID && Matches(i, assessmentID, typ) ==> i in ids;
        return None, id;
      }
      var picked :| picked in ids;
      id := picked;
      var v := ViewFor((picked, key));
      var value := Once(v, byID[picked], f);
      return Some(value), id;
    }

    /** Seed: a view that exists is kept, one whose decode has not run too. */
    method Seed(id: string, key: string, v: V) returns (ok: bool)
      requires Valid()
      requires id in byID ==> v == decode(key, byID[id].payload[..])
      modifies this`views, this`cells
      ensures Valid() && Contents() == old(Contents())
      ensures ok <==> id in byID && (id, key) !in old(views)
      ensures ok ==> (id, key) in views && views == old(views)[(id, key) := views[(id, key)]]
      ensures !ok ==> views == old(views)
      ensures Views() == if ok then old(Views())[(id, key) := Some(v)] else old(Views())
    {
      hide AllFaithful, AllHeld, Contents;
      var k := (id, key);
      if id !in byID || k in views {
        return false;
      }
      var seeded := AddView(k, Some(v));
      return true;
    }
  }

  /** What a caller writes into the payload it stored does not reach the store. */
  method WriteAfterPut<V>(s: MemStore<V>, a: Artifact, newID: string, now: nat, sha256: seq<bv8> -> string, i: nat,
                          b: bv8)
    requires s.Valid() && s.Foreign(a) && i < a.payload.Length
    modifies s`byID, s`views, s`own, s`bytes, a`id, a`contentHash, a`createdAt, a.payload
    ensures s.Valid() && s.Contents() == old(s.Contents())[a.id := a.Value().(payload := old(a.payload[..]))]
  {
    hide MemStore.AllHeld, MemStore.AllFaithful, MemStore.Contents, Without;
    var ref := s.Put(a, newID, now, sha256);
    a.payload[i] := b;
  }

  /** Nor does what it writes into one it was given. */
  method WriteAfterGet<V>(s: MemStore<V>, id: string, i: nat, b: bv8) returns (got: Artifact?)
    requires s.Valid()
    ensures s.Valid() && s.Contents() == old(s.Contents())
    ensures got != null <==> id in s.byID
    ensures got != null ==> got.payload.Length == |s.Contents()[id].payload|
    ensures got != null && i < got.payload.Length ==> got.payload[..] == s.Contents()[id].payload[i := b]
  {
    hide MemStore.AllHeld, MemStore.AllFaithful, MemStore.Contents;
    got := s.Get(id);
    if got != null && i < got.payload.Length {
      got.payload[i] := b;
    }
  }
}
