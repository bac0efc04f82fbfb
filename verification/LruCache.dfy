/** The cache object: a map from keys to list elements and the list of elements in recency
    order, both edited in place. The ghost `model` is the recency sequence they stand for. */
module LruCache {
  import opened Wrappers
  import opened LruSpec

  class Element<K, V> {
    const key: K
    var value: V
    var expires: int

    constructor (k: K, v: V, e: int)
      ensures key == k && value == v && expires == e
    {
      key, value, expires := k, v, e;
    }

    function View(): Entry<K, V> reads this {
      Entry(key, value, expires)
    }
  }

  /** Distinct keys, and the map holds exactly the listed elements under their keys. */
  ghost predicate Consistent<K, V>(cache: map<K, Element<K, V>>, lru: seq<Element<K, V>>) {
    && (forall i, j :: 0 <= i < j < |lru| ==> lru[i].key != lru[j].key)
    && (forall i :: 0 <= i < |lru| ==> lru[i].key in cache && cache[lru[i].key] == lru[i])
    && (forall k :: k in cache ==> cache[k].key == k && cache[k] in lru)
  }

  ghost predicate Shows<K, V>(lru: seq<Element<K, V>>, model: seq<Entry<K, V>>) reads lru {
    |lru| == |model| && forall i :: 0 <= i < |lru| ==> lru[i].View() == model[i]
  }

  lemma CutMembers<K, V>(lru: seq<Element<K, V>>, i: nat)
    requires i < |lru|
    ensures forall e :: e in lru ==> e == lru[i] || e in Cut(lru, i)
    ensures forall n :: 0 <= n < |lru| - 1 ==> Cut(lru, i)[n] == lru[if n < i then n else n + 1]
    ensures forall e :: e in Cut(lru, i) ==> e in lru
  {
    var t := Cut(lru, i);
    forall e | e in lru ensures e == lru[i] || e in t {
      var n :| 0 <= n < |lru| && lru[n] == e;
      assert n != i ==> t[if n < i then n else n - 1] == e;
    }
  }

  lemma RemovedConsistent<K, V>(cache: map<K, Element<K, V>>, lru: seq<Element<K, V>>, i: nat)
    requires Consistent(cache, lru) && i < |lru|
    ensures Consistent(cache - {lru[i].key}, Cut(lru, i))
  {
    CutMembers(lru, i);
  }

  lemma AppendedConsistent<K, V>(cache: map<K, Element<K, V>>, lru: seq<Element<K, V>>, e: Element<K, V>)
    requires Consistent(cache, lru) && e.key !in cache
    ensures Consistent(cache[e.key := e], lru + [e])
  {
    var t := lru + [e];
    assert forall i :: 0 <= i < |lru| ==> lru[i].key in cache;
    assert t[|lru|] == e;
    forall k | k in cache ensures cache[k] in t {
      assert cache[k] in lru;
    }
  }

  lemma MovedConsistent<K, V>(cache: map<K, Element<K, V>>, lru: seq<Element<K, V>>, i: nat)
    requires Consistent(cache, lru) && i < |lru|
    ensures Consistent(cache, Cut(lru, i) + [lru[i]])
  {
    RemovedConsistent(cache, lru, i);
    AppendedConsistent(cache - {lru[i].key}, Cut(lru, i), lru[i]);
    assert cache == (cache - {lru[i].key})[lru[i].key := lru[i]];
  }

  lemma CutShows<K, V>(lru: seq<Element<K, V>>, model: seq<Entry<K, V>>, i: nat)
    requires Shows(lru, model) && i < |lru|
    ensures Shows(Cut(lru, i), Cut(model, i))
    ensures Shows(Cut(lru, i) + [lru[i]], Cut(model, i) + [model[i]])
  {
  }

  class LruCache<K(==), V> {
    const cfg: Config
    var cache: map<K, Element<K, V>>
    var lru: seq<Element<K, V>>  // front is least recent
    ghost var model: seq<Entry<K, V>>
    ghost var Repr: set<object>

    ghost predicate Valid() reads this, Repr {
      && this in Repr && (forall e :: e in lru ==> e in Repr)
      && Consistent(cache, lru) && Shows(lru, model)
    }

    constructor (c: Config)
      ensures Valid() && fresh(Repr) && cfg == c && model == []
    {
      cfg, cache, lru, model, Repr := c, map[], [], [], {this};
    }

    /** The map and the list find the same element. */
    lemma PlaceOf(k: K) returns (i: int)
      requires Valid()
      ensures i == Place(model, k) && -1 <= i < |lru|
      ensures k in cache <==> i >= 0
      ensures k in cache ==> cache[k] == lru[i] && PlaceInList(lru, cache[k]) == i
    {
      i := Place(model, k);
      assert forall n :: 0 <= n < |lru| ==> lru[n].View() == model[n];
      if k in cache {
        var n :| 0 <= n < |lru| && lru[n] == cache[k];
        assert model[n].key == k;
      }
    }

    /** Takes one element out of the list and the map. */
    method DeleteElement(le: Element<K, V>)
      requires Valid() && le in lru
      modifies this`cache, this`lru, this`model
      ensures Valid() && model == LruSpec.Delete(old(model), le.key)
    {
      ghost var i := PlaceOf(le.key);
      RemovedConsistent(cache, lru, i);
      CutShows(lru, model, i);
      CutMembers(lru, i);
      lru := Cut(lru, PlaceInList(lru, le));
      cache := cache - {le.key};
      model := Cut(model, i);
    }

    method MoveToBack(le: Element<K, V>)
      requires Valid() && le in lru
      modifies this`lru, this`model
      ensures Valid() && model == LruSpec.Delete(old(model), le.key) + [le.View()]
      ensures |lru| > 0 && lru[|lru| - 1] == le
    {
      ghost var i := PlaceOf(le.key);
      MovedConsistent(cache, lru, i);
      CutShows(lru, model, i);
      CutMembers(lru, i);
      lru := Cut(lru, PlaceInList(lru, le)) + [le];
      model := Cut(model, i) + [model[i]];
    }

    /** Writes the value and expiry of the most recent element. */
    method Assign(le: Element<K, V>, value: V, expires: int)
      requires Valid() && |lru| > 0 && lru[|lru| - 1] == le
      modifies le, this`model
      ensures Valid() && model == old(model)[..|lru| - 1] + [Entry(le.key, value, expires)]
    {
      assert forall i :: 0 <= i < |lru| - 1 ==> lru[i].key != le.key;
      hide Consistent;
      le.value, le.expires := value, expires;
      model := model[..|lru| - 1] + [Entry(le.key, value, expires)];
    }

    method MaybeDeleteOldest(now: int)
      requires Valid()
      modifies this`cache, this`lru, this`model
      ensures Valid() && model == DropOldest(cfg, old(model), now)
    {
      if !cfg.staleReturn && cfg.maxAge > 0 {
        while |lru| > 0 && lru[0].expires <= now
          invariant Valid()
          invariant DropOldest(cfg, model, now) == DropOldest(cfg, old(model), now)
        {
          DeleteFront();
        }
        assert |lru| > 0 ==> lru[0].View() == model[0];
      }
    }

    method DeleteFront()
      requires Valid() && |lru| > 0
      modifies this`cache, this`lru, this`model
      ensures Valid() && model == old(model)[1..] && |lru| == |old(lru)| - 1
      ensures old(lru[0].View()) == old(model)[0]
    {
      assert model[0] == lru[0].View();
      assert Place(model, lru[0].key) == 0;
      DeleteElement(lru[0]);
    }

    method DropExpired(le: Element<K, V>, now: int)
      requires Valid() && le in lru
      modifies this`cache, this`lru, this`model
      ensures Valid() && model == DropOldest(cfg, LruSpec.Delete(old(model), le.key), now)
    {
      DeleteElement(le);
      MaybeDeleteOldest(now);
    }

    method Touch(le: Element<K, V>, now: int)
      requires Valid() && le in lru
      modifies this`lru, this`model, le
      ensures Valid() && model == LruSpec.Delete(old(model), le.key) + [le.View()]
      ensures le in lru
      ensures le.View() == if cfg.maxAge > 0 && cfg.updateAgeOnGet
                           then old(le.View()).(expires := now + cfg.maxAge) else old(le.View())
    {
      MoveToBack(le);
      if cfg.maxAge > 0 && cfg.updateAgeOnGet {
        ghost var moved := model;
        Assign(le, le.value, now + cfg.maxAge);
        assert moved[..|lru| - 1] == LruSpec.Delete(old(model), le.key);
        assert lru[|lru| - 1].View() == model[|lru| - 1];
      }
    }

    /** The lookup shared by Get, GetOrStore and GetWithExpire. */
    method Lookup(key: K, now: int) returns (el: Element?<K, V>)
      requires Valid()
      modifies Repr
      ensures Valid() && Repr == old(Repr)
      ensures el != null ==> el in lru
      ensures LruSpec.Get(cfg, old(model), key, now) == (model, if el == null then None else Some(el.View()))
    {
      ghost var i := PlaceOf(key);
      if key !in cache {
        return null;
      }
      el := Answer(cache[key], now);
    }

    method Answer(le: Element<K, V>, now: int) returns (el: Element?<K, V>)
      requires Valid() && le in lru
      modifies Repr
      ensures Valid() && Repr == old(Repr)
      ensures el != null ==> el in lru
      ensures LruSpec.Get(cfg, old(model), le.key, now) == (model, if el == null then None else Some(el.View()))
    {
      ghost var i := PlaceOf(le.key);
      assert lru[i].View() == model[i];
      hide Consistent, Shows, LruSpec.DropOldest, LruSpec.Cut, LruSpec.Delete, LruSpec.Place;
      if !cfg.staleReturn && cfg.maxAge > 0 && le.expires <= now {
        DropExpired(le, now);
        return null;
      }
      Touch(le, now);
      return le;
    }

    method Get(key: K, now: int) returns (r: Option<V>)
      requires Valid()
      modifies Repr
      ensures Valid() && Repr == old(Repr)
      ensures model == LruSpec.Get(cfg, old(model), key, now).0
      ensures r == ValueOf(LruSpec.Get(cfg, old(model), key, now).1)
    {
      var el := Lookup(key, now);
      return if el == null then None else Some(el.value);
    }

    predicate Exist(key: K) reads this {
      key in cache
    }

    method Append(key: K, value: V, expires: int)
      requires Valid() && key !in cache
      modifies this
      ensures Valid() && fresh(Repr - old(Repr)) && model == old(model) + [Entry(key, value, expires)]
    {
      var e := new Element<K, V>(key, value, expires);
      AppendedConsistent(cache, lru, e);
      lru := lru + [e];
      cache := cache[key := e];
      model := model + [Entry(key, value, expires)];
      Repr := Repr + {e};
    }

    method StoreEntry(key: K, value: V, expires: int)
      requires Valid()
      modifies Repr
      ensures Valid() && fresh(Repr - old(Repr))
      ensures model == Stored(cfg, old(model), key, value, expires)
    {
      ghost var i := PlaceOf(key);
      if key in cache {
        Overwrite(cache[key], value, expires);
      } else {
        Append(key, value, expires);
        if cfg.maxSize > 0 && |lru| > cfg.maxSize {
          DeleteFront();
        }
        assert LruSpec.Cut(old(model), -1) == old(model);
      }
    }

    method Overwrite(le: Element<K, V>, value: V, expires: int)
      requires Valid() && le in lru
      modifies this`lru, this`model, le
      ensures Valid() && model == LruSpec.Delete(old(model), le.key) + [Entry(le.key, value, expires)]
    {
      MoveToBack(le);
      ghost var moved := model;
      Assign(le, value, expires);
      assert moved[..|lru| - 1] == LruSpec.Delete(old(model), le.key);
    }

    method SetWithExpire(key: K, value: V, expires: int, now: int)
      requires Valid()
      modifies Repr
      ensures Valid() && fresh(Repr - old(Repr))
      ensures model == LruSpec.SetWithExpire(cfg, old(model), key, value, expires, now)
    {
      StoreEntry(key, value, expires);
      MaybeDeleteOldest(now);
    }

    method Set(key: K, value: V, now: int)
      requires Valid()
      modifies Repr
      ensures Valid() && fresh(Repr - old(Repr))
      ensures model == LruSpec.Set(cfg, old(model), key, value, now)
    {
      SetWithExpire(key, value, Stamp(cfg, now), now);
    }

    /** Looks the key up, or stores the value `constructor` would make. */
    method GetOrStore(key: K, constructed: V, now: int) returns (value: V, found: bool)
      requires Valid()
      modifies Repr
      ensures Valid() && fresh(Repr - old(Repr))
      ensures found == LruSpec.Get(cfg, old(model), key, now).1.Some?
      ensures found ==> model == LruSpec.Get(cfg, old(model), key, now).0
      ensures found ==> value == LruSpec.Get(cfg, old(model), key, now).1.value.value
      ensures !found ==> value == constructed
      ensures !found ==> model == LruSpec.Set(cfg, LruSpec.Get(cfg, old(model), key, now).0, key, constructed, now)
    {
      ghost var answer := LruSpec.Get(cfg, model, key, now);
      var el := Lookup(key, now);
      assert model == answer.0;
      if el == null {
        Set(key, constructed, now);
        return constructed, false;
      }
      return el.value, true;
    }

    method Delete(key: K)
      requires Valid()
      modifies this`cache, this`lru, this`model
      ensures Valid()
      ensures model == LruSpec.Delete(old(model), key)
    {
      ghost var i := PlaceOf(key);
      if key in cache {
        DeleteElement(cache[key]);
      }
    }
  }

  function ValueOf<K, V>(e: Option<Entry<K, V>>): Option<V> {
    if e.Some? then Some(e.value.value) else None
  }

  /** The place of an element in the list, by identity. */
  function PlaceInList<K, V>(lru: seq<Element<K, V>>, le: Element<K, V>): (i: nat)
    requires le in lru
    ensures i < |lru| && lru[i] == le
  {
    if lru[0] == le then 0 else PlaceInList(lru[1..], le) + 1
  }
}
