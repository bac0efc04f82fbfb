/** The fake-ip pool as a value: the ring position and one recency list of (host, address)
    pairs, which both caches turn out to share. */
module FakeIpSpec {
  import opened Text
  import opened Wrappers
  import opened LruSpec

  /** An address of one of the two families, as a number. */
  datatype Addr = Addr(is4: bool, n: nat)

  function Next(a: Addr): Addr {
    Addr(a.is4, a.n + 1)
  }

  /** IPv4 addresses come before IPv6 addresses. */
  predicate Less(a: Addr, b: Addr) {
    if a.is4 == b.is4 then a.n < b.n else a.is4
  }

  type Pairs<K, V> = seq<(K, V)>

  /** A cache without ages that holds the given pairs. */
  function View<K, V>(ps: Pairs<K, V>): (s: seq<Entry<K, V>>)
    ensures |s| == |ps|
    ensures forall i :: 0 <= i < |ps| ==> s[i] == Entry(ps[i].0, ps[i].1, 0)
  {
    seq(|ps|, i requires 0 <= i < |ps| => Entry(ps[i].0, ps[i].1, 0))
  }

  function Swap<K, V>(ps: Pairs<K, V>): (s: Pairs<V, K>)
    ensures |s| == |ps|
    ensures forall i :: 0 <= i < |ps| ==> s[i] == (ps[i].1, ps[i].0)
  {
    seq(|ps|, i requires 0 <= i < |ps| => (ps[i].1, ps[i].0))
  }

  ghost function PlaceOf<K, V>(ps: Pairs<K, V>, k: K): (i: int)
    ensures -1 <= i < |ps|
    ensures i >= 0 ==> ps[i].0 == k
    ensures i < 0 ==> forall j :: 0 <= j < |ps| ==> ps[j].0 != k
  {
    Place(View(ps), k)
  }

  function ToBack<A>(s: seq<A>, i: nat): seq<A>
    requires i < |s|
  {
    Cut(s, i) + [s[i]]
  }

  function Trim<A>(size: int, s: seq<A>): (r: seq<A>)
    ensures |r| <= |s|
  {
    if size > 0 && |s| > size then s[1..] else s
  }

  ghost predicate OneToOne(pairs: Pairs<string, Addr>) {
    forall i, j :: 0 <= i < j < |pairs| ==> pairs[i].0 != pairs[j].0 && pairs[i].1 != pairs[j].1
  }

  /** Without the pair of `ip`, whose address is free again. */
  ghost function Freed(pairs: Pairs<string, Addr>, ip: Addr): Pairs<string, Addr> {
    Cut(pairs, PlaceOf(Swap(pairs), ip))
  }

  // ---- cache operations on views ----

  function NoAge(size: int): Config {
    Config(0, size, false, false)
  }

  lemma ViewParts<K, V>(ps: Pairs<K, V>, i: int)
    requires -1 <= i < |ps|
    ensures View(Cut(ps, i)) == Cut(View(ps), i)
    ensures i >= 0 ==> View(ToBack(ps, i)) == ToBack(View(ps), i)
  {
  }

  lemma GetOnView<K, V>(size: int, ps: Pairs<K, V>, k: K, now: int)
    ensures var i := PlaceOf(ps, k);
            Get(NoAge(size), View(ps), k, now) ==
              if i < 0 then (View(ps), None) else (View(ToBack(ps, i)), Some(View(ps)[i]))
  {
    ViewParts(ps, PlaceOf(ps, k));
  }

  lemma DeleteOnView<K, V>(ps: Pairs<K, V>, k: K)
    ensures Delete(View(ps), k) == View(Cut(ps, PlaceOf(ps, k)))
  {
    ViewParts(ps, PlaceOf(ps, k));
  }

  lemma SetOnView<K, V>(size: int, ps: Pairs<K, V>, k: K, v: V, now: int)
    requires PlaceOf(ps, k) < 0
    ensures Set(NoAge(size), View(ps), k, v, now) == View(Trim(size, ps + [(k, v)]))
  {
    assert View(ps) + [Entry(k, v, 0)] == View(ps + [(k, v)]);
    assert View(ps + [(k, v)])[1..] == View((ps + [(k, v)])[1..]);
  }

  lemma SwapParts<K, V>(ps: Pairs<K, V>, i: int, p: (K, V))
    requires -1 <= i < |ps|
    ensures Swap(Cut(ps, i)) == Cut(Swap(ps), i)
    ensures i >= 0 ==> Swap(ToBack(ps, i)) == ToBack(Swap(ps), i)
    ensures Swap(ps + [p]) == Swap(ps) + [(p.1, p.0)]
  {
  }

  lemma SwapTrim<K, V>(size: int, ps: Pairs<K, V>)
    ensures Swap(Trim(size, ps)) == Trim(size, Swap(ps))
  {
  }

  lemma CutAt<A>(s: seq<A>, i: int)
    requires -1 <= i < |s|
    ensures |Cut(s, i)| == if i < 0 then |s| else |s| - 1
    ensures forall j :: 0 <= j < |Cut(s, i)| ==> Cut(s, i)[j] == s[if 0 <= i <= j then j + 1 else j]
  {
  }

  lemma FreedIsFree(pairs: Pairs<string, Addr>, ip: Addr, host: string)
    requires OneToOne(pairs)
    ensures OneToOne(Freed(pairs, ip)) && PlaceOf(Swap(Freed(pairs, ip)), ip) < 0
    ensures PlaceOf(pairs, host) < 0 ==> PlaceOf(Freed(pairs, ip), host) < 0
    ensures PlaceOf(Swap(pairs), ip) < 0 ==> Freed(pairs, ip) == pairs
    ensures forall p :: p in Freed(pairs, ip) <==> p in pairs && p.1 != ip
  {
    hide Cut, PlaceOf, Swap;
    var i := PlaceOf(Swap(pairs), ip);
    CutAt(pairs, i);
    var kept := Freed(pairs, ip);
    assert i >= 0 ==> pairs[i].1 == ip;
    assert i < 0 ==> forall j :: 0 <= j < |pairs| ==> Swap(pairs)[j].0 != ip;
    assert i < 0 ==> kept == pairs;
    forall p | p in pairs && p.1 != ip ensures p in kept {
      var j :| 0 <= j < |pairs| && pairs[j] == p;
      assert kept[if 0 <= i < j then j - 1 else j] == p;
    }
  }

  lemma AddedOneToOne(size: int, pairs: Pairs<string, Addr>, host: string, ip: Addr)
    requires OneToOne(pairs) && PlaceOf(pairs, host) < 0 && PlaceOf(Swap(pairs), ip) < 0
    ensures OneToOne(Trim(size, pairs + [(host, ip)]))
  {
    var t := pairs + [(host, ip)];
    assert forall j :: 0 <= j < |pairs| ==> Swap(pairs)[j].0 != ip;
    assert OneToOne(t);
  }

  lemma MovedOneToOne(pairs: Pairs<string, Addr>, i: nat)
    requires OneToOne(pairs) && i < |pairs|
    ensures OneToOne(ToBack(pairs, i))
    ensures |ToBack(pairs, i)| == |pairs| && forall p :: p in ToBack(pairs, i) ==> p in pairs
  {
    hide Cut;
    CutAt(pairs, i);
    var t := ToBack(pairs, i);
    assert forall j :: 0 <= j < |t| - 1 ==> t[j] == pairs[if j < i then j else j + 1];
    assert t[|t| - 1] == pairs[i];
  }

  // ---- the pool ----

  datatype Ring = Ring(first: Addr, last: Addr, size: int)

  datatype State = State(offset: Addr, cycle: bool, pairs: Pairs<string, Addr>)

  /** The ring position handed out next. */
  function Advance(ring: Ring, offset: Addr): Addr {
    if Less(Next(offset), ring.last) then Next(offset) else ring.first
  }

  ghost function Lookup(ring: Ring, st: State, host: string): (State, Addr) {
    var h := ToLower(host);
    var i := PlaceOf(st.pairs, h);
    if i >= 0 then (st.(pairs := ToBack(st.pairs, i)), st.pairs[i].1)
    else
      var a := Advance(ring, st.offset);
      var pairs := Trim(ring.size, Freed(st.pairs, a) + [(h, a)]);
      (State(a, st.cycle || !Less(Next(st.offset), ring.last), pairs), a)
  }

  ghost function LookBack(st: State, a: Addr): (State, Option<string>) {
    var i := PlaceOf(Swap(st.pairs), a);
    if i >= 0 then (st.(pairs := ToBack(st.pairs, i)), Some(st.pairs[i].0)) else (st, None)
  }

  ghost predicate Exist(st: State, a: Addr) {
    PlaceOf(Swap(st.pairs), a) >= 0
  }
}
