/** Choice of a proxy: jump consistent hashing and round robin. Floating point enters through a
    rounding of real results. */
module LoadBalance {
  // ---- jump consistent hashing ----

  const TWO31: int := 0x8000_0000
  const TWO33: int := 0x2_0000_0000
  const TWO64: int := 0x1_0000_0000_0000_0000

  ghost predicate Exact(rnd: real -> real, n: int) {
    rnd(n as real) == n as real && rnd((n * TWO31) as real) == (n * TWO31) as real
  }

  /** What is used of binary64 rounding: it is monotone and exact on the numbers n and n * 2^31
      for n up to 2^31. */
  ghost predicate Rounding(rnd: real -> real) {
    && (forall x, y :: x <= y ==> rnd(x) <= rnd(y))
    && (forall n :: 0 <= n <= TWO31 ==> Exact(rnd, n))
  }

  function Scramble(key: int): (k: int)
    ensures 0 <= k < TWO64
  {
    (key * 2862933555777941757 + 1) % TWO64
  }

  /** How far one step stretches the bucket count: 2^31 over the top 31 bits of the key plus one. */
  function Stretch(rnd: real -> real, key: int): real
    requires 0 <= key
  {
    rnd(TWO31 as real / (key / TWO33 + 1) as real)
  }

  function Times(n: int, r: real): real {
    n as real * r
  }

  /** The bucket count at which the key leaves bucket `b`. */
  function Jump(rnd: real -> real, key: int, b: int): int
    requires 0 <= key
  {
    rnd(Times(b + 1, Stretch(rnd, key))).Floor
  }

  lemma NonNegative(a: real, d: real)
    requires d > 0.0 && a * d >= 0.0
    ensures a >= 0.0
  {
  }

  lemma Quotient(t: real, d: real)
    requires 1.0 <= d <= t
    ensures 1.0 <= t / d <= t
  {
    var q := t / d;
    assert q * d == t;
    assert (q - 1.0) * d == t - d;
    NonNegative(q - 1.0, d);
    assert (t - q) * d == t * d - t;
    assert t * d - t == t * (d - 1.0) >= 0.0;
    NonNegative(t - q, d);
  }

  lemma Product(x: real, r: real, m: real)
    requires x >= 0.0 && 1.0 <= r <= m
    ensures x <= x * r <= x * m
  {
    assert x * (r - 1.0) >= 0.0 && x * (m - r) >= 0.0;
  }

  lemma RoundedBetween(rnd: real -> real, lo: int, x: real, hi: int)
    requires forall x, y :: x <= y ==> rnd(x) <= rnd(y)
    requires rnd(lo as real) == lo as real && rnd(hi as real) == hi as real
    requires lo as real <= x <= hi as real
    ensures lo as real <= rnd(x) <= hi as real
    ensures lo <= rnd(x).Floor <= hi
  {
  }

  lemma TimesAsReal(n: int)
    ensures (n * TWO31) as real == n as real * TWO31 as real
  {
  }

  lemma Times31(rnd: real -> real, n: int, r: real)
    requires Rounding(rnd) && 1 <= n <= TWO31 && 1.0 <= r <= TWO31 as real
    ensures n <= rnd(Times(n, r)).Floor <= n * TWO31
  {
    hide Rounding, Exact;
    Product(n as real, r, TWO31 as real);
    TimesAsReal(n);
    RoundingFacts(rnd, n);
    RoundedBetween(rnd, n, Times(n, r), n * TWO31);
  }

  lemma RoundingFacts(rnd: real -> real, n: int)
    requires Rounding(rnd) && 0 <= n <= TWO31
    ensures forall x, y :: x <= y ==> rnd(x) <= rnd(y)
    ensures rnd(n as real) == n as real && rnd((n * TWO31) as real) == (n * TWO31) as real
  {
    assert Exact(rnd, n);
  }

  lemma StretchBounds(rnd: real -> real, key: int)
    requires Rounding(rnd) && 0 <= key < TWO64
    ensures 1.0 <= Stretch(rnd, key) <= TWO31 as real
  {
    var d := key / TWO33 + 1;
    assert 1 <= d <= TWO31;
    Quotient(TWO31 as real, d as real);
    RoundingFacts(rnd, 1);
    RoundingFacts(rnd, TWO31);
    RoundedBetween(rnd, 1, TWO31 as real / d as real, TWO31);
  }

  /** Jumps go forward, and no intermediate value exceeds 2^62. */
  lemma JumpForward(rnd: real -> real, key: int, b: int)
    requires Rounding(rnd) && 0 <= key < TWO64 && 0 <= b < TWO31
    ensures b + 1 <= Jump(rnd, key, b) <= (b + 1) * TWO31 <= 0x4000_0000_0000_0000
  {
    hide Rounding, Exact, Times;
    StretchBounds(rnd, key);
    Times31(rnd, b + 1, Stretch(rnd, key));
  }

  /** The loop from bucket `b` and next jump `j`. */
  ghost function Bucket(rnd: real -> real, key: int, b: int, j: int, buckets: int): int
    requires Rounding(rnd) && 0 <= key < TWO64 && 0 <= b <= j && buckets < TWO31
    decreases buckets - j
  {
    if j < buckets then
      var k := Scramble(key);
      JumpForward(rnd, k, j);
      Bucket(rnd, k, j, Jump(rnd, k, j), buckets)
    else b
  }

  method JumpHash(key: int, buckets: int, rnd: real -> real) returns (r: int)
    requires Rounding(rnd) && 0 <= key < TWO64 && -TWO31 <= buckets < TWO31
    ensures r == Bucket(rnd, key, 0, 0, buckets)
    ensures if buckets > 0 then 0 <= r < buckets else r == 0
  {
    var b, j, k := 0, 0, key;
    while j < buckets
      invariant 0 <= k < TWO64 && 0 <= b <= j && (b < buckets || b == 0)
      invariant Bucket(rnd, k, b, j, buckets) == Bucket(rnd, key, 0, 0, buckets)
      decreases buckets - j
    {
      b := j;
      k := Scramble(k);
      JumpForward(rnd, k, b);
      j := Jump(rnd, k, b);
    }
    return b;
  }

  lemma {:induction false} BucketAtLeast(rnd: real -> real, key: int, b: int, j: int, buckets: int)
    requires Rounding(rnd) && 0 <= key < TWO64 && 0 <= b <= j && buckets < TWO31
    ensures j < buckets ==> j <= Bucket(rnd, key, b, j, buckets) < buckets
    decreases buckets - j
  {
    if j < buckets {
      var k := Scramble(key);
      JumpForward(rnd, k, j);
      BucketAtLeast(rnd, k, j, Jump(rnd, k, j), buckets);
    }
  }

  /** Growing from `m` to `n` buckets moves a key to a new bucket or not at all. */
  lemma {:induction false} GrowthMovesUp(rnd: real -> real, key: int, b: int, j: int, m: int, n: int)
    requires Rounding(rnd) && 0 <= key < TWO64 && 0 <= b <= j && m <= n < TWO31
    ensures Bucket(rnd, key, b, j, n) == Bucket(rnd, key, b, j, m) || m <= Bucket(rnd, key, b, j, n) < n
    decreases m - j
  {
    if j < m {
      var k := Scramble(key);
      JumpForward(rnd, k, j);
      GrowthMovesUp(rnd, k, j, Jump(rnd, k, j), m, n);
    } else {
      BucketAtLeast(rnd, key, b, j, n);
    }
  }

  /** One more bucket: every key stays or moves to the new bucket. */
  lemma MinimalDisruption(rnd: real -> real, key: int, n: int)
    requires Rounding(rnd) && 0 <= key < TWO64 && 1 <= n < TWO31 - 1
    ensures Bucket(rnd, key, 0, 0, n + 1) == Bucket(rnd, key, 0, 0, n) || Bucket(rnd, key, 0, 0, n + 1) == n
  {
    GrowthMovesUp(rnd, key, 0, 0, n, n + 1);
  }

  /** The bucket of the `i`-th try. */
  ghost function Home(rnd: real -> real, key: int, i: nat, buckets: int): (b: int)
    requires Rounding(rnd) && 0 < buckets < TWO31
    ensures 0 <= b < buckets
  {
    BucketAtLeast(rnd, (key + i) % TWO64, 0, 0, buckets);
    Bucket(rnd, (key + i) % TWO64, 0, 0, buckets)
  }

  /** Five hashed tries, then the first proxy that is alive, then the first. */
  method ConsistentHashing(key: int, alive: seq<bool>, rnd: real -> real) returns (r: nat)
    requires Rounding(rnd) && 0 <= key < TWO64 && 0 < |alive| < TWO31
    ensures r < |alive|
    ensures alive[r] || (r == 0 && forall i :: 0 <= i < |alive| ==> !alive[i])
    ensures var home := Bucket(rnd, key, 0, 0, |alive|); 0 <= home < |alive| && (alive[home] ==> r == home)
    ensures forall i: nat ::
      (i < 5 && alive[Home(rnd, key, i, |alive|)] && forall j: nat :: j < i ==> !alive[Home(rnd, key, j, |alive|)])
      ==> r == Home(rnd, key, i, |alive|)
    ensures (forall i: nat :: i < 5 ==> !alive[Home(rnd, key, i, |alive|)]) ==> forall m :: 0 <= m < r ==> !alive[m]
  {
    hide Bucket;
    BucketAtLeast(rnd, key, 0, 0, |alive|);
    assert Home(rnd, key, 0, |alive|) == Bucket(rnd, key, 0, 0, |alive|);
    var i, k := 0, key;
    while i < 5
      invariant 0 <= i <= 5 && k == (key + i) % TWO64
      invariant forall j: nat :: j < i ==> !alive[Home(rnd, key, j, |alive|)]
    {
      var idx := JumpHash(k, |alive|, rnd);
      assert idx == Home(rnd, key, i, |alive|);
      if alive[idx] {
        return idx;
      }
      i, k := i + 1, (k + 1) % TWO64;
    }
    for n := 0 to |alive|
      invariant forall m :: 0 <= m < n ==> !alive[m]
    {
      if alive[n] {
        return n;
      }
    }
    return 0;
  }

  // ---- round robin ----

  function Wrap(x: nat, n: nat): (r: nat)
    requires n > 0
    ensures r < n
  {
    x % n
  }

  /** The proxies alive from `lo` to `hi`, in order. */
  function AliveIn(alive: seq<bool>, lo: nat, hi: nat): (s: seq<nat>)
    requires lo <= hi <= |alive|
    ensures forall i :: i in s <==> lo <= i < hi && alive[i]
    decreases hi - lo
  {
    if lo == hi then [] else (if alive[lo] then [lo] else []) + AliveIn(alive, lo + 1, hi)
  }

  /** The proxies alive, in the order in which they will be served from `start`. */
  function Turn(alive: seq<bool>, start: nat): seq<nat>
    requires start < |alive|
  {
    AliveIn(alive, start, |alive|) + AliveIn(alive, 0, start)
  }

  class RoundRobin {
    var idx: nat

    constructor ()
      ensures idx == 0
    {
      idx := 0;
    }

    /** Serves the next alive proxy; a touching call moves on behind it. */
    method Pick(alive: seq<bool>, touch: bool) returns (r: nat)
      requires |alive| > 0
      modifies this
      ensures r < |alive|
      ensures r == if Turn(alive, Wrap(old(idx), |alive|)) == [] then 0 else Turn(alive, Wrap(old(idx), |alive|))[0]
      ensures !touch ==> idx == old(idx)
      ensures touch ==> idx < |alive|
      ensures touch ==> Turn(alive, idx) == Rotated(Turn(alive, Wrap(old(idx), |alive|)))
      ensures touch ==> idx == Wrap(if alive[r] then r + 1 else old(idx), |alive|)
    {
      hide Turn, AliveIn, Wrap, Place, Rotated;
      var length := |alive|;
      ghost var start := Wrap(idx, length);
      var i := 0;
      while i < length
        invariant 0 <= i <= length && idx == old(idx)
        invariant forall n :: 0 <= n < i ==> !alive[Place(start, n, length)]
      {
        var id := Wrap(idx + i, length);
        PlaceIs(idx, i, length);
        if alive[id] {
          i := i + 1;
          ServedFrom(alive, start, i - 1);
          if touch {
            PlaceIs(idx, i, length);
            NextPlace(start, i - 1, length);
            idx := Wrap(idx + i, length);
          }
          return id;
        }
        i := i + 1;
      }
      NothingAlive(alive, start);
      AllPlaces(alive, start);
      if touch {
        PlaceIs(idx, i, length);
        NextPlace(start, length, length);
        idx := Wrap(idx + i, length);
      }
      return 0;
    }
  }

  /** The `n`-th place from `start` around a list. */
  function Place(start: nat, n: nat, length: nat): (r: nat)
    requires start < length && n <= length
    ensures r < length
  {
    if start + n < length then start + n else start + n - length
  }

  lemma PlaceIs(idx: nat, i: nat, length: nat)
    requires length > 0 && i <= length
    ensures Wrap(idx + i, length) == Place(Wrap(idx, length), i, length) < length
  {
    var q, s := idx / length, Wrap(idx, length) + i;
    assert idx + i == q * length + s;
    Remainder(idx + i, if s < length then q else q + 1, Place(Wrap(idx, length), i, length), length);
  }

  lemma NextPlace(start: nat, n: nat, length: nat)
    requires start < length && n <= length
    ensures n < length ==> Place(start, n + 1, length) == Wrap(Place(start, n, length) + 1, length)
    ensures Place(start, length, length) == start
  {
    var p := Place(start, n, length) + 1;
    if p < length { Wrapped(p, length); }
  }

  lemma AllPlaces(alive: seq<bool>, start: nat)
    requires start < |alive| && forall m :: 0 <= m < |alive| ==> !alive[Place(start, m, |alive|)]
    ensures forall i :: 0 <= i < |alive| ==> !alive[i]
  {
    forall i | 0 <= i < |alive| ensures !alive[i] {
      assert i == Place(start, if i >= start then i - start else i + |alive| - start, |alive|);
    }
  }

  lemma Wrapped(x: nat, n: nat)
    requires x < n
    ensures Wrap(x, n) == x
  {
  }

  lemma Remainder(x: nat, q: nat, r: nat, n: nat)
    requires n > 0 && r < n && x == q * n + r
    ensures x % n == r
  {
    var d := x / n - q;
    assert d * n == r - x % n;
    Monotone(1, d, n);
    Monotone(d, -1, n);
  }

  lemma Monotone(a: int, b: int, n: nat)
    ensures a <= b ==> a * n <= b * n
  {
  }

  function Rotated(s: seq<nat>): seq<nat> {
    if |s| == 0 then s else s[1..] + [s[0]]
  }

  lemma {:induction false} AliveSplit(alive: seq<bool>, lo: nat, m: nat, hi: nat)
    requires lo <= m <= hi <= |alive|
    ensures AliveIn(alive, lo, hi) == AliveIn(alive, lo, m) + AliveIn(alive, m, hi)
    decreases m - lo
  {
    if lo < m { AliveSplit(alive, lo + 1, m, hi); }
  }

  lemma {:induction false} AliveNone(alive: seq<bool>, lo: nat, hi: nat)
    requires lo <= hi <= |alive| && forall i :: lo <= i < hi ==> !alive[i]
    ensures AliveIn(alive, lo, hi) == []
    decreases hi - lo
  {
    if lo < hi { AliveNone(alive, lo + 1, hi); }
  }

  /** The first alive place heads the turn, and the turn behind it is the rotation. */
  lemma ServedFrom(alive: seq<bool>, start: nat, n: nat)
    requires start < |alive| && n < |alive| && alive[Place(start, n, |alive|)]
    requires forall m :: 0 <= m < n ==> !alive[Place(start, m, |alive|)]
    ensures |Turn(alive, start)| > 0 && Turn(alive, start)[0] == Place(start, n, |alive|)
    ensures Turn(alive, Place(start, n + 1, |alive|)) == Rotated(Turn(alive, start))
  {
    hide Turn, AliveIn, Rotated;
    var l, id := |alive|, Place(start, n, |alive|);
    if start + n < l {
      forall i | start <= i < id ensures !alive[i] { assert i == Place(start, i - start, l); }
      ServedAhead(alive, start, id);
    } else {
      forall i | start <= i < l ensures !alive[i] { assert i == Place(start, i - start, l); }
      forall i | 0 <= i < id ensures !alive[i] { assert i == Place(start, i + l - start, l); }
      ServedBehind(alive, start, id);
    }
  }

  lemma HeadOfAlive(alive: seq<bool>, lo: nat, id: nat, hi: nat)
    requires lo <= id < hi <= |alive| && alive[id] && forall i :: lo <= i < id ==> !alive[i]
    ensures AliveIn(alive, lo, hi) == [id] + AliveIn(alive, id + 1, hi)
  {
    AliveNone(alive, lo, id);
    AliveSplit(alive, lo, id, hi);
  }

  lemma LastOfAlive(alive: seq<bool>, lo: nat, id: nat)
    requires lo <= id < |alive| && alive[id]
    ensures AliveIn(alive, lo, id + 1) == AliveIn(alive, lo, id) + [id]
  {
    AliveSplit(alive, lo, id, id + 1);
    assert AliveIn(alive, id + 1, id + 1) == [];
  }

  lemma ServedAhead(alive: seq<bool>, start: nat, id: nat)
    requires start <= id < |alive| && alive[id] && forall i :: start <= i < id ==> !alive[i]
    ensures |Turn(alive, start)| > 0 && Turn(alive, start)[0] == id
    ensures Turn(alive, if id + 1 == |alive| then 0 else id + 1) == Rotated(Turn(alive, start))
  {
    var l := |alive|;
    hide AliveIn;
    HeadOfAlive(alive, start, id, l);
    LastOfAlive(alive, 0, id);
    AliveSplit(alive, 0, start, id);
    AliveNone(alive, start, id);
    var rest, before := AliveIn(alive, id + 1, l), AliveIn(alive, 0, start);
    assert Rotated(Turn(alive, start)) == rest + before + [id];
    assert AliveIn(alive, 0, id + 1) == before + [id];
    AliveNone(alive, 0, 0);
    AliveNone(alive, l, l);
  }

  lemma ServedBehind(alive: seq<bool>, start: nat, id: nat)
    requires id < start < |alive| && alive[id]
    requires forall i :: start <= i < |alive| ==> !alive[i]
    requires forall i :: 0 <= i < id ==> !alive[i]
    ensures |Turn(alive, start)| > 0 && Turn(alive, start)[0] == id
    ensures Turn(alive, id + 1) == Rotated(Turn(alive, start))
  {
    var l := |alive|;
    hide AliveIn;
    AliveNone(alive, start, l);
    HeadOfAlive(alive, 0, id, start);
    AliveNone(alive, 0, id);
    LastOfAlive(alive, 0, id);
    AliveSplit(alive, id + 1, start, l);
  }

  lemma NothingAlive(alive: seq<bool>, start: nat)
    requires start < |alive| && forall m :: 0 <= m < |alive| ==> !alive[Place(start, m, |alive|)]
    ensures Turn(alive, start) == []
    ensures Turn(alive, Place(start, |alive|, |alive|)) == Rotated(Turn(alive, start))
  {
    var l := |alive|;
    AllPlaces(alive, start);
    AliveNone(alive, start, l);
    AliveNone(alive, 0, start);
  }

  /** `k` rotations, as one cut. */
  function RotatedBy(s: seq<nat>, k: nat): seq<nat> {
    if k == 0 then s else Rotated(RotatedBy(s, k - 1))
  }

  lemma NextRotation(s: seq<nat>, k: nat)
    ensures RotatedBy(s, k + 1) == Rotated(RotatedBy(s, k))
  {
  }

  lemma {:induction false} RotatedByCut(s: seq<nat>, k: nat)
    requires k <= |s|
    ensures RotatedBy(s, k) == s[k..] + s[..k]
  {
    if k > 0 {
      RotatedByCut(s, k - 1);
      assert s[..k] == s[..k - 1] + [s[k - 1]];
    }
  }

  /** Any |s| consecutive touching calls serve every alive proxy exactly once, and the turn is
      then where it was. */
  method ServeRound(rr: RoundRobin, alive: seq<bool>) returns (served: seq<nat>)
    requires |alive| > 0
    modifies rr
    ensures served == Turn(alive, Wrap(old(rr.idx), |alive|))
    ensures forall i :: 0 <= i < |alive| ==> multiset(served)[i] == if alive[i] then 1 else 0
    ensures served != [] ==> rr.idx < |alive| && Turn(alive, rr.idx) == served
  {
    hide Turn, AliveIn, Wrap, CountAlive, Rotated, RotatedBy;
    ghost var start := Wrap(rr.idx, |alive|);
    ghost var turn := Turn(alive, start);
    OncePerTurn(alive, start);
    TurnLength(alive, start);
    served := [];
    var n := CountAlive(alive);
    RotatedByCut(turn, 0);
    while |served| < n
      invariant |served| <= n == |turn|
      invariant served == turn[..|served|]
      invariant Turn(alive, Wrap(rr.idx, |alive|)) == RotatedBy(turn, |served|)
      invariant |served| > 0 ==> rr.idx < |alive|
    {
      RotatedByCut(turn, |served|);
      var r := rr.Pick(alive, true);
      assert r == turn[|served|];
      NextRotation(turn, |served|);
      Wrapped(rr.idx, |alive|);
      served := served + [r];
    }
    assert served == turn;
    RotatedByCut(turn, n);
    assert RotatedBy(turn, n) == turn;
    if n > 0 { Wrapped(rr.idx, |alive|); }
  }

  function CountAlive(alive: seq<bool>): nat {
    |AliveIn(alive, 0, |alive|)|
  }

  lemma TurnLength(alive: seq<bool>, start: nat)
    requires start < |alive|
    ensures |Turn(alive, start)| == CountAlive(alive)
  {
    AliveSplit(alive, 0, start, |alive|);
  }

  lemma {:induction false} AliveOnce(alive: seq<bool>, lo: nat, hi: nat, i: nat)
    requires lo <= hi <= |alive|
    ensures multiset(AliveIn(alive, lo, hi))[i] == if lo <= i < hi && alive[i] then 1 else 0
    decreases hi - lo
  {
    hide AliveIn;
    AliveStep(alive, lo, hi);
    if lo < hi {
      var rest := AliveIn(alive, lo + 1, hi);
      AliveOnce(alive, lo + 1, hi, i);
      CountCons(lo, rest, i);
    }
  }

  lemma AliveStep(alive: seq<bool>, lo: nat, hi: nat)
    requires lo <= hi <= |alive|
    ensures AliveIn(alive, lo, hi) ==
            if lo == hi then []
            else if alive[lo] then [lo] + AliveIn(alive, lo + 1, hi) else AliveIn(alive, lo + 1, hi)
  {
  }

  lemma CountCons(x: nat, s: seq<nat>, i: nat)
    ensures multiset([x] + s)[i] == multiset(s)[i] + if i == x then 1 else 0
  {
    assert multiset([x] + s) == multiset([x]) + multiset(s);
  }

  lemma OncePerTurn(alive: seq<bool>, start: nat)
    requires start < |alive|
    ensures forall i :: 0 <= i < |alive| ==> multiset(Turn(alive, start))[i] == if alive[i] then 1 else 0
  {
    forall i | 0 <= i < |alive| ensures multiset(Turn(alive, start))[i] == if alive[i] then 1 else 0 {
      AliveOnce(alive, start, |alive|, i);
      AliveOnce(alive, 0, start, i);
    }
  }
}
