/** The cache as a recency sequence of entries, least recently used first. */
module LruSpec {
  import opened Wrappers

  datatype Entry<K, V> = Entry(key: K, value: V, expires: int)

  /** The options of a cache; a non-positive maximum means no limit. */
  datatype Config = Config(maxAge: int, maxSize: int, updateAgeOnGet: bool, staleReturn: bool)

  predicate Expires(cfg: Config) {
    !cfg.staleReturn && cfg.maxAge > 0
  }

  /** A place of a key, or -1; keys are distinct in every reachable cache. */
  ghost function Place<K, V>(s: seq<Entry<K, V>>, k: K): (i: int)
    ensures -1 <= i < |s|
    ensures i >= 0 ==> s[i].key == k
    ensures i < 0 ==> forall j :: 0 <= j < |s| ==> s[j].key != k
  {
    if i :| 0 <= i < |s| && s[i].key == k then i else -1
  }

  function Cut<A>(s: seq<A>, i: int): (r: seq<A>)
    requires -1 <= i < |s|
    ensures |r| == if i < 0 then |s| else |s| - 1
  {
    if i < 0 then s else s[..i] + s[i + 1..]
  }

  /** Removal of expired entries from the front. */
  function DropOldest<K, V>(cfg: Config, s: seq<Entry<K, V>>, now: int): (r: seq<Entry<K, V>>)
    ensures |r| <= |s| && r == s[|s| - |r|..]
    ensures !Expires(cfg) ==> r == s
  {
    if Expires(cfg) && |s| > 0 && s[0].expires <= now then DropOldest(cfg, s[1..], now) else s
  }

  ghost function Get<K, V>(cfg: Config, s: seq<Entry<K, V>>, k: K, now: int): (seq<Entry<K, V>>, Option<Entry<K, V>>) {
    var i := Place(s, k);
    if i < 0 then (s, None)
    else if Expires(cfg) && s[i].expires <= now then (DropOldest(cfg, Cut(s, i), now), None)
    else
      var e := if cfg.maxAge > 0 && cfg.updateAgeOnGet then s[i].(expires := now + cfg.maxAge) else s[i];
      (Cut(s, i) + [e], Some(e))
  }

  ghost function Stored<K, V>(cfg: Config, s: seq<Entry<K, V>>, k: K, v: V, expires: int): seq<Entry<K, V>> {
    var i := Place(s, k);
    var t := Cut(s, i) + [Entry(k, v, expires)];
    if i < 0 && cfg.maxSize > 0 && |t| > cfg.maxSize then t[1..] else t
  }

  ghost function SetWithExpire<K, V>(cfg: Config, s: seq<Entry<K, V>>, k: K, v: V, expires: int,
                                     now: int): seq<Entry<K, V>> {
    DropOldest(cfg, Stored(cfg, s, k, v, expires), now)
  }

  /** The expiry of an entry stored now. */
  function Stamp(cfg: Config, now: int): int {
    if cfg.maxAge > 0 then now + cfg.maxAge else 0
  }

  ghost function Set<K, V>(cfg: Config, s: seq<Entry<K, V>>, k: K, v: V, now: int): seq<Entry<K, V>> {
    SetWithExpire(cfg, s, k, v, Stamp(cfg, now), now)
  }

  ghost function Delete<K, V>(s: seq<Entry<K, V>>, k: K): seq<Entry<K, V>> {
    Cut(s, Place(s, k))
  }

  // ---- what every operation keeps ----

  ghost predicate DistinctKeys<K, V>(s: seq<Entry<K, V>>) {
    forall i, j :: 0 <= i < j < |s| ==> s[i].key != s[j].key
  }

  ghost predicate Inv<K, V>(cfg: Config, s: seq<Entry<K, V>>) {
    DistinctKeys(s) && (cfg.maxSize > 0 ==> |s| <= cfg.maxSize)
  }

  lemma GetKeepsInv<K, V>(cfg: Config, s: seq<Entry<K, V>>, k: K, now: int)
    requires Inv(cfg, s)
    ensures Inv(cfg, Get(cfg, s, k, now).0)
  {
    var i := Place(s, k);
    if i >= 0 {
      if Expires(cfg) && s[i].expires <= now {
        CutKeepsInv(cfg, s, i);
        DropKeepsInv(cfg, Cut(s, i), now);
      } else {
        MoveKeepsDistinct(s, k, Get(cfg, s, k, now).1.value);
      }
    }
  }

  lemma CutKeepsInv<K, V>(cfg: Config, s: seq<Entry<K, V>>, i: nat)
    requires Inv(cfg, s) && i < |s|
    ensures Inv(cfg, Cut(s, i))
  {
  }

  lemma DropKeepsInv<K, V>(cfg: Config, s: seq<Entry<K, V>>, now: int)
    requires Inv(cfg, s)
    ensures Inv(cfg, DropOldest(cfg, s, now))
  {
  }

  lemma SetKeepsInv<K, V>(cfg: Config, s: seq<Entry<K, V>>, k: K, v: V, expires: int, now: int)
    requires Inv(cfg, s)
    ensures Inv(cfg, SetWithExpire(cfg, s, k, v, expires, now))
  {
    MoveKeepsDistinct(s, k, Entry(k, v, expires));
    DropKeepsInv(cfg, Stored(cfg, s, k, v, expires), now);
  }

  lemma MoveKeepsDistinct<K, V>(s: seq<Entry<K, V>>, k: K, e: Entry<K, V>)
    requires DistinctKeys(s) && e.key == k
    ensures DistinctKeys(Cut(s, Place(s, k)) + [e])
  {
    var i := Place(s, k);
    var t := Cut(s, i);
    forall j | 0 <= j < |t| ensures t[j].key != k {
      assert t[j] == if 0 <= i <= j then s[j + 1] else s[j];
    }
  }

  /** A key is answered exactly when it is stored and, if ages count, not past its time. */
  lemma GetIsFresh<K, V>(cfg: Config, s: seq<Entry<K, V>>, k: K, now: int)
    requires DistinctKeys(s)
    ensures Get(cfg, s, k, now).1.Some? <==>
            exists i :: 0 <= i < |s| && s[i].key == k && (Expires(cfg) ==> s[i].expires > now)
  {
    var p := Place(s, k);
    assert forall i :: 0 <= i < |s| && s[i].key == k ==> i == p;
  }

  /** The answered entry becomes the most recently used one and no other is lost. */
  lemma GetMovesToBack<K, V>(cfg: Config, s: seq<Entry<K, V>>, k: K, now: int)
    requires Get(cfg, s, k, now).1.Some?
    ensures var (t, r) := Get(cfg, s, k, now);
            r.value.key == k && |t| == |s| && t[|t| - 1] == r.value
            && forall i :: 0 <= i < |s| && s[i].key != k ==> s[i] in t
  {
    var (t, r) := Get(cfg, s, k, now);
    forall i | 0 <= i < |s| && s[i].key != k ensures s[i] in t {
      KeptByCut(s, Place(s, k), r.value, i);
    }
  }

  /** A stored entry becomes the most recently used one; of the others only the least recently
      used one is lost, and only when a new key meets a full cache. */
  lemma SetEvictsOldest<K, V>(cfg: Config, s: seq<Entry<K, V>>, k: K, v: V, expires: int)
    requires Inv(cfg, s)
    ensures var t := Stored(cfg, s, k, v, expires);
            && |t| > 0 && t[|t| - 1] == Entry(k, v, expires)
            && forall i :: 0 <= i < |s| && s[i].key != k ==>
                 (s[i] in t <==> i > 0 || Place(s, k) >= 0 || cfg.maxSize <= 0 || |s| < cfg.maxSize)
  {
    var e := Entry(k, v, expires);
    forall i | 0 <= i < |s| && s[i].key != k
      ensures s[i] in Stored(cfg, s, k, v, expires) <==>
              i > 0 || Place(s, k) >= 0 || cfg.maxSize <= 0 || |s| < cfg.maxSize
    {
      var p := Place(s, k);
      if p < 0 && cfg.maxSize > 0 && |s| == cfg.maxSize {
        KeptBehindFirst(s, e, i);
      } else {
        KeptByCut(s, p, e, i);
      }
    }
  }

  lemma KeptByCut<K, V>(s: seq<Entry<K, V>>, p: int, e: Entry<K, V>, i: nat)
    requires -1 <= p < |s| && i < |s| && i != p
    ensures s[i] in Cut(s, p) + [e]
  {
    var t := Cut(s, p) + [e];
    assert t[if 0 <= p < i then i - 1 else i] == s[i];
  }

  lemma KeptBehindFirst<K, V>(s: seq<Entry<K, V>>, e: Entry<K, V>, i: nat)
    requires DistinctKeys(s) && i < |s| && s[i].key != e.key
    ensures s[i] in (s + [e])[1..] <==> i > 0
  {
    var t := (s + [e])[1..];
    assert forall j :: 0 <= j < |t| ==> t[j] == if j < |s| - 1 then s[j + 1] else e;
    if i > 0 { assert t[i - 1] == s[i]; }
  }
}
