/** What a cache answers, and for how long, after each operation. */
module LruAnswers {
  import opened Wrappers
  import opened LruSpec

  /** Not past its time, if ages count. */
  predicate Live<K, V>(cfg: Config, e: Entry<K, V>, t: int) {
    cfg.maxAge <= 0 || cfg.staleReturn || t < e.expires
  }

  ghost function Found<K, V>(cfg: Config, s: seq<Entry<K, V>>, k: K, t: int): Option<Entry<K, V>> {
    Get(cfg, s, k, t).1
  }

  /** The entry of a key, as an answer shows it. */
  function Shown<K, V>(cfg: Config, e: Entry<K, V>, t: int): Entry<K, V> {
    if cfg.maxAge > 0 && cfg.updateAgeOnGet then Entry(e.key, e.value, t + cfg.maxAge) else e
  }

  lemma FoundEntry<K, V>(cfg: Config, s: seq<Entry<K, V>>, k: K, t: int, e: Entry<K, V>)
    requires DistinctKeys(s) && e in s && e.key == k
    ensures Found(cfg, s, k, t) == if Live(cfg, e, t) then Some(Shown(cfg, e, t)) else None
  {
    var i :| 0 <= i < |s| && s[i] == e;
    assert i == Place(s, k);
  }

  lemma FoundNothing<K, V>(cfg: Config, s: seq<Entry<K, V>>, k: K, t: int)
    requires forall e :: e in s ==> e.key != k
    ensures Found(cfg, s, k, t) == None
  {
  }

  lemma NoLiveEntry<K, V>(cfg: Config, s: seq<Entry<K, V>>, k: K, t: int)
    requires DistinctKeys(s) && forall e :: e in s && e.key == k ==> !Live(cfg, e, t)
    ensures Found(cfg, s, k, t) == None
  {
    hide Found, Live;
    if e :| e in s && e.key == k {
      FoundEntry(cfg, s, k, t, e);
    } else {
      FoundNothing(cfg, s, k, t);
    }
  }

  /** Sequences that hold the same live entries of a key answer alike. */
  lemma SameAnswer<K, V>(cfg: Config, s: seq<Entry<K, V>>, u: seq<Entry<K, V>>, k: K, t: int)
    requires DistinctKeys(s) && DistinctKeys(u)
    requires forall e: Entry<K, V> :: e.key == k && Live(cfg, e, t) ==> (e in s <==> e in u)
    ensures Found(cfg, s, k, t) == Found(cfg, u, k, t)
  {
    hide Found, Live, DistinctKeys;
    if e :| e in s && e.key == k && Live(cfg, e, t) {
      FoundEntry(cfg, s, k, t, e);
      FoundEntry(cfg, u, k, t, e);
    } else {
      NoLiveEntry(cfg, s, k, t);
      NoLiveEntry(cfg, u, k, t);
    }
  }

  // ---- dropping expired entries ----

  lemma {:induction false} DropKeepsLive<K, V>(cfg: Config, s: seq<Entry<K, V>>, now: int, e: Entry<K, V>)
    requires Live(cfg, e, now)
    ensures e in DropOldest(cfg, s, now) <==> e in s
    decreases |s|
  {
    if Expires(cfg) && |s| > 0 && s[0].expires <= now {
      hide Live;
      DropKeepsLive(cfg, s[1..], now, e);
      assert e != s[0] by { ExpiredIsNotLive(cfg, s[0], now); }
      assert s == [s[0]] + s[1..];
    }
  }

  lemma ExpiredIsNotLive<K, V>(cfg: Config, e: Entry<K, V>, now: int)
    ensures Expires(cfg) && e.expires <= now ==> !Live(cfg, e, now)
  {
  }

  lemma LiveBefore<K, V>(cfg: Config, e: Entry<K, V>, now: int, t: int)
    requires now <= t
    ensures Live(cfg, e, t) ==> Live(cfg, e, now)
  {
  }

  /** Dropping expired entries changes no later answer; the least recent entry left is live. */
  lemma DropIsInvisible<K, V>(cfg: Config, s: seq<Entry<K, V>>, now: int, k: K, t: int)
    requires Inv(cfg, s) && now <= t
    ensures Found(cfg, DropOldest(cfg, s, now), k, t) == Found(cfg, s, k, t)
    ensures var u := DropOldest(cfg, s, now); |u| > 0 ==> Live(cfg, u[0], now)
  {
    hide Found, Live;
    var u := DropOldest(cfg, s, now);
    DropKeepsInv(cfg, s, now);
    forall e: Entry<K, V> | Live(cfg, e, t) ensures e in s <==> e in u {
      LiveBefore(cfg, e, now, t);
      DropKeepsLive(cfg, s, now, e);
    }
    SameAnswer(cfg, s, u, k, t);
    FirstIsLive(cfg, s, now);
  }

  lemma {:induction false} FirstIsLive<K, V>(cfg: Config, s: seq<Entry<K, V>>, now: int)
    ensures var u := DropOldest(cfg, s, now); |u| > 0 ==> Live(cfg, u[0], now)
    decreases |s|
  {
    if Expires(cfg) && |s| > 0 && s[0].expires <= now {
      FirstIsLive(cfg, s[1..], now);
    }
  }

  // ---- what each operation changes ----

  /** A new key meets a full cache, and `k` is the least recently used one. */
  ghost predicate Evicted<K, V>(cfg: Config, s: seq<Entry<K, V>>, stored: K, k: K) {
    && cfg.maxSize > 0 && |s| >= cfg.maxSize && s[0].key == k
    && forall e :: e in s ==> e.key != stored
  }

  lemma StoredKeepsDistinct<K, V>(cfg: Config, s: seq<Entry<K, V>>, k: K, v: V, expires: int)
    requires DistinctKeys(s)
    ensures DistinctKeys(Stored(cfg, s, k, v, expires))
  {
    MoveKeepsDistinct(s, k, Entry(k, v, expires));
  }

  lemma StoredEntry<K, V>(cfg: Config, s: seq<Entry<K, V>>, k: K, v: V, expires: int)
    requires Inv(cfg, s)
    ensures Entry(k, v, expires) in Stored(cfg, s, k, v, expires)
  {
    SetEvictsOldest(cfg, s, k, v, expires);
  }

  lemma StoredOthers<K, V>(cfg: Config, s: seq<Entry<K, V>>, k: K, v: V, expires: int, e: Entry<K, V>)
    requires Inv(cfg, s) && e.key != k
    ensures e in Stored(cfg, s, k, v, expires) <==> e in s && !Evicted(cfg, s, k, e.key)
  {
    var p, n := Place(s, k), Entry(k, v, expires);
    NotStored(s, k);
    if p >= 0 {
      InCut(s, p, e);
    } else if cfg.maxSize > 0 && |s| >= cfg.maxSize {
      BehindFirst(s, n, e);
    }
  }

  lemma NotStored<K, V>(s: seq<Entry<K, V>>, k: K)
    ensures Place(s, k) < 0 <==> forall e :: e in s ==> e.key != k
  {
  }

  lemma BehindFirst<K, V>(s: seq<Entry<K, V>>, n: Entry<K, V>, e: Entry<K, V>)
    requires DistinctKeys(s) && |s| > 0 && e.key != n.key
    ensures e in (s + [n])[1..] <==> e in s && e.key != s[0].key
  {
    assert s == [s[0]] + s[1..];
    assert (s + [n])[1..] == s[1..] + [n];
    if e in s[1..] {
      var i :| 0 <= i < |s| - 1 && s[1..][i] == e;
      assert s[i + 1] == e;
    }
  }

  /** A value stored is answered until its age limit is reached, and not from then on; without ages, or when
      stale entries are returned, always. */
  lemma SetThenGet<K, V>(cfg: Config, s: seq<Entry<K, V>>, k: K, v: V, now: int, t: int)
    requires Inv(cfg, s) && now <= t
    ensures var r := Found(cfg, Set(cfg, s, k, v, now), k, t);
      && (r.Some? <==> cfg.maxAge <= 0 || cfg.staleReturn || t < now + cfg.maxAge)
      && (r.Some? ==> r.value.key == k && r.value.value == v)
  {
    hide Found, Stored;
    var e := Entry(k, v, Stamp(cfg, now));
    var u := Stored(cfg, s, k, v, e.expires);
    StoredEntry(cfg, s, k, v, e.expires);
    StoredKeepsDistinct(cfg, s, k, v, e.expires);
    DropKeepsLive(cfg, u, now, e);
    SetKeepsInv(cfg, s, k, v, e.expires, now);
    FoundEntry(cfg, Set(cfg, s, k, v, now), k, t, e);
  }

  /** A live entry of another key stays unless it is evicted. */
  lemma OtherEntry<K, V>(cfg: Config, s: seq<Entry<K, V>>, k: K, v: V, now: int, e: Entry<K, V>, t: int)
    requires Inv(cfg, s) && now <= t && e.key != k && Live(cfg, e, t)
    ensures e in Set(cfg, s, k, v, now) <==> e in s && !Evicted(cfg, s, k, e.key)
  {
    hide Stored, Evicted, Live, DropOldest, DistinctKeys;
    LiveBefore(cfg, e, now, t);
    DropKeepsLive(cfg, Stored(cfg, s, k, v, Stamp(cfg, now)), now, e);
    StoredOthers(cfg, s, k, v, Stamp(cfg, now), e);
  }

  /** Every other key answers as before, except the one that is evicted. */
  lemma SetThenGetOther<K, V>(cfg: Config, s: seq<Entry<K, V>>, k: K, v: V, now: int, other: K, t: int)
    requires Inv(cfg, s) && now <= t && other != k
    ensures Found(cfg, Set(cfg, s, k, v, now), other, t)
         == if Evicted(cfg, s, k, other) then None else Found(cfg, s, other, t)
  {
    var w := Set(cfg, s, k, v, now);
    SetKeepsInv(cfg, s, k, v, Stamp(cfg, now), now);
    hide Found, Evicted, Live, Set, DistinctKeys;
    if Evicted(cfg, s, k, other) {
      forall e | e in w && e.key == other ensures !Live(cfg, e, t) {
        if Live(cfg, e, t) { OtherEntry(cfg, s, k, v, now, e, t); }
      }
      NoLiveEntry(cfg, w, other, t);
    } else {
      forall e: Entry<K, V> | e.key == other && Live(cfg, e, t) ensures e in w <==> e in s {
        OtherEntry(cfg, s, k, v, now, e, t);
      }
      SameAnswer(cfg, w, s, other, t);
    }
  }

  /** An answered entry is answered again until its time is up; with ages updated, its time starts anew. */
  lemma GetThenGet<K, V>(cfg: Config, s: seq<Entry<K, V>>, k: K, now: int, e: Entry<K, V>, t: int)
    requires Inv(cfg, s) && e in s && e.key == k && Live(cfg, e, now) && now <= t
    ensures var r := Found(cfg, Get(cfg, s, k, now).0, k, t);
      && (r.Some? <==> cfg.maxAge <= 0 || cfg.staleReturn
                       || t < if cfg.updateAgeOnGet then now + cfg.maxAge else e.expires)
      && (r.Some? ==> r.value.key == k && r.value.value == e.value)
  {
    hide Found;
    var i :| 0 <= i < |s| && s[i] == e;
    assert i == Place(s, k);
    GetKeepsInv(cfg, s, k, now);
    var u := Get(cfg, s, k, now).0;
    assert u[|u| - 1] == Shown(cfg, e, now);
    FoundEntry(cfg, u, k, t, Shown(cfg, e, now));
  }

  /** A lookup changes no later answer for another key. */
  lemma GetThenGetOther<K, V>(cfg: Config, s: seq<Entry<K, V>>, k: K, now: int, other: K, t: int)
    requires Inv(cfg, s) && now <= t && other != k
    ensures Found(cfg, Get(cfg, s, k, now).0, other, t) == Found(cfg, s, other, t)
  {
    hide Found, Live, DropOldest;
    var i := Place(s, k);
    GetKeepsInv(cfg, s, k, now);
    if i >= 0 {
      var u := Get(cfg, s, k, now).0;
      forall e: Entry<K, V> | e.key == other && Live(cfg, e, t) ensures e in u <==> e in s {
        LiveBefore(cfg, e, now, t);
        DropKeepsLive(cfg, Cut(s, i), now, e);
        InCut(s, i, e);
      }
      SameAnswer(cfg, u, s, other, t);
    }
  }

  lemma InCut<K, V>(s: seq<Entry<K, V>>, i: nat, e: Entry<K, V>)
    requires i < |s| && e != s[i]
    ensures e in Cut(s, i) <==> e in s
  {
    assert s == s[..i] + [s[i]] + s[i + 1..];
  }

  /** A deleted key is not found; every other key answers as before. */
  lemma DeleteThenGet<K, V>(cfg: Config, s: seq<Entry<K, V>>, k: K, other: K, t: int)
    requires Inv(cfg, s)
    ensures Found(cfg, Delete(s, k), other, t) == if other == k then None else Found(cfg, s, other, t)
  {
    hide Found, Live;
    var i := Place(s, k);
    if i >= 0 {
      CutKeepsInv(cfg, s, i);
      assert forall e :: e in Cut(s, i) ==> e.key != k;
      if other == k {
        FoundNothing(cfg, Cut(s, i), k, t);
      } else {
        forall e: Entry<K, V> | e.key == other ensures e in Cut(s, i) <==> e in s { InCut(s, i, e); }
        SameAnswer(cfg, Cut(s, i), s, other, t);
      }
    } else if other == k {
      FoundNothing(cfg, s, k, t);
    }
  }
}
