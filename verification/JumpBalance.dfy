/** Where jump hash sends a key, computed in integers alone, and how evenly. */
module JumpBalance {
  import opened Sequences
  import opened LoadBalance

  const TWO20: int := 0x10_0000
  const TWO51: int := 0x8_0000_0000_0000
  const TWO53: int := 0x20_0000_0000_0000

  /** The unit of rounding, 2^-53. */
  const UNIT: real := 1.0 / TWO53 as real

  ghost predicate ExactTo53(rnd: real -> real) {
    forall n :: 0 <= n <= TWO53 ==> Exactly(rnd, n)
  }

  ghost predicate Exactly(rnd: real -> real, n: int) {
    rnd(n as real) == n as real
  }

  ghost predicate CloseTo(rnd: real -> real, x: real) {
    x - x * UNIT <= rnd(x) <= x + x * UNIT
  }

  /** Rounding to 53 bits: integers of that size are exact, other results off by at most one unit. */
  ghost predicate Binary64(rnd: real -> real) {
    && Rounding(rnd)
    && ExactTo53(rnd)
    && forall x :: 1.0 <= x <= TWO64 as real ==> CloseTo(rnd, x)
  }

  /** Exact arithmetic is one such rounding. */
  lemma IdentityRounds()
    ensures Binary64((x: real) => x)
  {
  }

  /** The next key, and its top 31 bits. */
  function NextKey(key: int): (k: int)
    ensures 0 <= k < 0x1_0000_0000_0000_0000
  {
    (key * 2862933555777941757 + 1) % 0x1_0000_0000_0000_0000
  }

  function Top(k: int): int {
    k / 0x2_0000_0000
  }

  /** The bucket behind bucket `b` for a key with the top bits `t`. */
  function Target(b: int, t: int): int
    requires t >= 0
  {
    (b + 1) * 0x8000_0000 / (t + 1)
  }

  // ---- arithmetic ----

  lemma QuotientBounds(x: int, d: int)
    requires d > 0
    ensures x / d * d <= x <= (x / d + 1) * d - 1
  {
  }

  lemma Scale(a: int, b: int, d: int)
    requires d > 0
    ensures a <= b ==> a * d <= b * d
    ensures a < b ==> a * d < b * d
  {
  }

  lemma QuotientAtLeast(x: int, d: int, n: int)
    requires d > 0
    ensures x / d >= n <==> x >= n * d
  {
    QuotientBounds(x, d);
    Scale(n, x / d, d);
    Scale(x / d + 1, n, d);
  }

  /** A key leaves bucket `b` to bucket `n` or above exactly if its top bits are small enough. */
  lemma LeavesExactly(b: int, t: int, n: int)
    requires t >= 0
    ensures Target(b, t) >= n <==> (b + 1) * 0x8000_0000 >= n * (t + 1)
  {
    QuotientAtLeast((b + 1) * 0x8000_0000, t + 1, n);
  }

  lemma TargetAhead(b: int, t: int)
    requires b >= 0 && 0 <= t < 0x8000_0000
    ensures Target(b, t) >= b + 1
  {
    LeavesExactly(b, t, b + 1);
    Scale(t + 1, 0x8000_0000, b + 1);
  }

  /** Jump hash without floating point, from bucket `b` on. */
  function IntegerHash(key: int, b: int, n: int): int
    requires 0 <= b < n
    decreases n - b
  {
    var k := NextKey(key);
    TargetAhead(b, Top(k));
    if Target(b, Top(k)) >= n then b else IntegerHash(k, Target(b, Top(k)), n)
  }

  // ---- the rounded computation against the integer one ----

  lemma RealScale(a: real, b: real, d: real)
    requires d >= 0.0 && a <= b
    ensures a * d <= b * d
  {
    assert (b - a) * d >= 0.0;
  }

  lemma RealCancel(a: real, d: real)
    requires d > 0.0
    ensures a * d > 0.0 ==> a > 0.0
    ensures a * d >= 0.0 ==> a >= 0.0
    ensures a * d == 0.0 ==> a == 0.0
  {
    if a < 0.0 { assert -a * d > 0.0; }
    if a > 0.0 { assert a * d > 0.0; }
  }

  lemma {:induction false} ProductAsReal(a: int, b: int)
    ensures (a * b) as real == a as real * b as real
    decreases if a >= 0 then a else -a
  {
    if a > 0 {
      ProductAsReal(a - 1, b);
      assert a * b == (a - 1) * b + b;
    } else if a < 0 {
      ProductAsReal(a + 1, b);
      assert a * b == (a + 1) * b - b;
    }
  }

  /** The exact product `y` of the bucket and the stretch lies between two integers, at least 1/d away from
      the upper one, and from the lower one too unless it is equal to it. */
  lemma Bracket(b: int, t: int) returns (y: real)
    requires b >= 0 && t >= 0
    ensures var q, d := Target(b, t), (t + 1) as real;
      && y == (b + 1) as real * (0x8000_0000 as real / d)
      && y * d == ((b + 1) * 0x8000_0000) as real
      && (q as real + 1.0 - y) * d >= 1.0
      && if (b + 1) * 0x8000_0000 % (t + 1) == 0 then y == q as real else (y - q as real) * d >= 1.0
  {
    var q, x, d := Target(b, t), (b + 1) * 0x8000_0000, (t + 1) as real;
    var s := 0x8000_0000 as real / d;
    y := (b + 1) as real * s;
    assert s * d == 0x8000_0000 as real;
    assert y * d == (b + 1) as real * (s * d);
    ProductAsReal(q, t + 1);
    ProductAsReal(q + 1, t + 1);
    QuotientBounds(x, t + 1);
    assert (q as real + 1.0 - y) * d == (q as real + 1.0) * d - y * d;
    assert (y - q as real) * d == y * d - q as real * d;
    assert x % (t + 1) == x - q * (t + 1);
    RealCancel(y - q as real, d);
  }

  /** Two roundings move a product of at most 2^51 by less than its distance 1/d to an integer. */
  lemma TwoRoundings(y: real, gap: real, d: real)
    requires d > 0.0 && y >= 0.0 && y * d <= TWO51 as real && gap * d >= 1.0
    ensures y * (2.0 * UNIT + UNIT * UNIT) < gap
  {
    var c := 2.0 * UNIT + UNIT * UNIT;
    assert (gap - y * c) * d == gap * d - (y * d) * c;
    assert (y * d) * c <= TWO51 as real * c < 1.0;
    RealCancel(gap - y * c, d);
  }

  lemma Scaled(n: real, s: real, r: real)
    requires n >= 0.0 && s - s * UNIT <= r <= s + s * UNIT
    ensures n * s - n * s * UNIT <= n * r <= n * s + n * s * UNIT
  {
    RealScale(s - s * UNIT, r, n);
    RealScale(r, s + s * UNIT, n);
    assert (s * UNIT) * n == n * s * UNIT;
  }

  lemma ProductRange(n: real, r: real)
    requires 1.0 <= n <= 1048576.0 && 1.0 <= r <= 2147483648.0
    ensures 1.0 <= n * r <= 2251799813685248.0
  {
    RealScale(1.0, n, r);
    assert r <= n * r;
    RealScale(n, 1048576.0, r);
    assert n * r <= 1048576.0 * r;
  }

  lemma TwiceOff(y: real, w: real, z: real)
    requires y >= 0.0 && y - y * UNIT <= w <= y + y * UNIT && w - w * UNIT <= z <= w + w * UNIT
    ensures y - y * (2.0 * UNIT + UNIT * UNIT) <= z <= y + y * (2.0 * UNIT + UNIT * UNIT)
  {
  }

  lemma RoundsTo(rnd: real -> real, s: real)
    requires Binary64(rnd) && 1.0 <= s <= TWO31 as real
    ensures 1.0 <= rnd(s) <= TWO31 as real && CloseTo(rnd, s)
  {
    RoundingFacts(rnd, 1);
    RoundingFacts(rnd, TWO31);
  }

  lemma RoundedProduct(rnd: real -> real, b: int, s: real)
    requires Binary64(rnd) && 0 <= b < TWO20 && 1.0 <= s <= TWO31 as real
    ensures var y, z := (b + 1) as real * s, rnd(Times(b + 1, rnd(s)));
      var c := 2.0 * UNIT + UNIT * UNIT;
      y - y * c <= z <= y + y * c
  {
    var n, r := (b + 1) as real, rnd(s);
    var y, w := n * s, n * r;
    RoundsTo(rnd, s);
    ProductRange(n, r);
    ProductRange(n, s);
    Scaled(n, s, r);
    assert CloseTo(rnd, w);
    TwiceOff(y, w, rnd(w));
  }

  /** A result between two integers, which rounding may only have pulled below an integer it should be. */
  predicate Tie(b: int, t: int)
    requires t >= 0
  {
    (b + 1) * 0x8000_0000 % (t + 1) == 0 && 0x8000_0000 % (t + 1) != 0
  }

  lemma StretchIs(rnd: real -> real, k: int)
    requires 0 <= k < TWO64
    ensures 0 <= Top(k) < TWO31
    ensures Stretch(rnd, k) == rnd(0x8000_0000 as real / (Top(k) + 1) as real)
    ensures 1.0 <= 0x8000_0000 as real / (Top(k) + 1) as real <= TWO31 as real
  {
    Quotient(TWO31 as real, (Top(k) + 1) as real);
  }

  /** Under any such rounding a jump is the integer quotient, or one less where the quotient is a tie. */
  lemma JumpIs(rnd: real -> real, k: int, b: int)
    requires Binary64(rnd) && 0 <= k < TWO64 && 0 <= b < TWO20
    ensures Top(k) >= 0
    ensures Jump(rnd, k, b) == Target(b, Top(k)) || (Tie(b, Top(k)) && Jump(rnd, k, b) == Target(b, Top(k)) - 1)
  {
    hide Binary64;
    var t := Top(k);
    StretchIs(rnd, k);
    if 0x8000_0000 % (t + 1) == 0 {
      WholeStretch(rnd, k, b);
    } else {
      BrokenStretch(rnd, k, b);
    }
  }

  /** Two roundings of the product leave it on the same side of the integers, unless it is one. */
  lemma SmallEnough(b: int, t: int) returns (y: real, off: real)
    requires 0 <= b < TWO20 && t >= 0
    ensures y == (b + 1) as real * (0x8000_0000 as real / (t + 1) as real)
    ensures off == y * (2.0 * UNIT + UNIT * UNIT) < Target(b, t) as real + 1.0 - y
    ensures if (b + 1) * 0x8000_0000 % (t + 1) == 0 then y == Target(b, t) as real && off < 1.0
            else off < y - Target(b, t) as real
  {
    hide Target;
    y := Bracket(b, t);
    off := y * (2.0 * UNIT + UNIT * UNIT);
    var q, d := Target(b, t), (t + 1) as real;
    RealCancel(y, d);
    TwoRoundings(y, q as real + 1.0 - y, d);
    if (b + 1) * 0x8000_0000 % (t + 1) != 0 {
      TwoRoundings(y, y - q as real, d);
    } else {
      RealScale(1.0, d, y);
      SmallOffset(y);
    }
  }

  lemma BrokenStretch(rnd: real -> real, k: int, b: int)
    requires Binary64(rnd) && 0 <= k < TWO64 && 0 <= b < TWO20 && Top(k) >= 0
    requires 0x8000_0000 % (Top(k) + 1) != 0
    ensures Jump(rnd, k, b) == Target(b, Top(k)) || (Tie(b, Top(k)) && Jump(rnd, k, b) == Target(b, Top(k)) - 1)
  {
    hide Binary64, Target, Jump, Tie, Times;
    var t := Top(k);
    StretchIs(rnd, k);
    RoundedProduct(rnd, b, 0x8000_0000 as real / (t + 1) as real);
    JumpIsFloor(rnd, k, b);
    TieIs(b, t);
    var y, off := SmallEnough(b, t);
    var z := rnd(Times(b + 1, Stretch(rnd, k)));
    if (b + 1) * 0x8000_0000 % (t + 1) != 0 {
      FloorIs(z, y, off, Target(b, t));
    } else {
      FloorNear(z, y, off, Target(b, t));
    }
  }

  lemma JumpIsFloor(rnd: real -> real, k: int, b: int)
    requires 0 <= k
    ensures Jump(rnd, k, b) == rnd(Times(b + 1, Stretch(rnd, k))).Floor
  {
  }

  lemma TieIs(b: int, t: int)
    requires t >= 0
    ensures (b + 1) * 0x8000_0000 % (t + 1) == 0 && 0x8000_0000 % (t + 1) != 0 ==> Tie(b, t)
  {
  }

  lemma SmallOffset(y: real)
    requires 0.0 <= y <= TWO51 as real
    ensures y * (2.0 * UNIT + UNIT * UNIT) < 1.0
  {
  }

  lemma FloorIs(z: real, y: real, off: real, q: int)
    requires y - off <= z <= y + off && off < q as real + 1.0 - y && off < y - q as real
    ensures z.Floor == q
  {
  }

  lemma FloorNear(z: real, y: real, off: real, q: int)
    requires y - off <= z <= y + off && off < q as real + 1.0 - y && y == q as real && off < 1.0
    ensures z.Floor == q || z.Floor == q - 1
  {
  }

  lemma WholeTarget(b: int, d: int, m: int)
    requires 0 <= b < TWO20 && d > 0 && m * d == 0x8000_0000
    ensures Target(b, d - 1) == (b + 1) * m && 0 < m <= 0x8000_0000 && 0 <= (b + 1) * m <= TWO51
  {
    assert (b + 1) * 0x8000_0000 == (b + 1) * m * d;
    QuotientAtLeast((b + 1) * 0x8000_0000, d, (b + 1) * m);
    QuotientAtLeast((b + 1) * 0x8000_0000, d, (b + 1) * m + 1);
    Scale(m, 0, d);
    Scale(1, d, m);
    Scale(b + 1, TWO20, m);
    Scale(0, b + 1, m);
  }

  /** A stretch that is a whole number is exact. */
  lemma WholeStretch(rnd: real -> real, k: int, b: int)
    requires Binary64(rnd) && 0 <= k < TWO64 && 0 <= b < TWO20 && Top(k) >= 0
    requires 0x8000_0000 % (Top(k) + 1) == 0
    ensures Jump(rnd, k, b) == Target(b, Top(k))
  {
    var m, d := 0x8000_0000 / (Top(k) + 1), Top(k) + 1;
    hide Target, Rounding;
    StretchIs(rnd, k);
    assert m * d == 0x8000_0000;
    WholeTarget(b, d, m);
    WholeQuotient(m, d);
    assert Exactly(rnd, m);
    ProductAsReal(b + 1, m);
    assert Exactly(rnd, (b + 1) * m);
  }

  lemma WholeQuotient(m: int, d: int)
    requires d > 0 && m * d == 0x8000_0000
    ensures 0x8000_0000 as real / d as real == m as real
  {
    ProductAsReal(m, d);
    RealQuotient(m as real, d as real);
  }

  lemma RealQuotient(m: real, d: real)
    requires d > 0.0
    ensures m * d / d == m
  {
  }

  // ---- where a key goes ----

  /** No jump of the key is a tie. */
  predicate NoTies(key: int, b: int, n: int)
    requires 0 <= b < n
    decreases n - b
  {
    var k := NextKey(key);
    TargetAhead(b, Top(k));
    !Tie(b, Top(k)) && (Target(b, Top(k)) >= n || NoTies(k, Target(b, Top(k)), n))
  }

  /** With up to 2^20 buckets and any rounding to 53 bits, the bucket is the one computed in integers, unless
      a jump is a tie; the first jump never is. */
  lemma {:induction false} HashIsInteger(rnd: real -> real, key: int, a: int, b: int, n: int)
    requires Binary64(rnd) && 0 <= key < TWO64 && 0 <= a <= b < n <= TWO20 && NoTies(key, b, n)
    ensures Bucket(rnd, key, a, b, n) == IntegerHash(key, b, n)
    decreases n - b
  {
    hide Binary64, Tie, Target, Top, NextKey, Jump;
    var k := NextKey(key);
    ScrambleIsNext(key);
    BinaryRounds(rnd);
    JumpIs(rnd, k, b);
    JumpForward(rnd, k, b);
    TargetAhead(b, Top(k));
    if Target(b, Top(k)) < n {
      HashIsInteger(rnd, k, b, Target(b, Top(k)), n);
    }
  }

  lemma ScrambleIsNext(key: int)
    ensures Scramble(key) == NextKey(key) && 0 <= Top(NextKey(key)) < 0x8000_0000
  {
  }

  lemma BinaryRounds(rnd: real -> real)
    ensures Binary64(rnd) ==> Rounding(rnd)
  {
  }

  /** In exact arithmetic it is that bucket for every key and number of buckets. */
  lemma {:induction false} ExactHashIsInteger(key: int, a: int, b: int, n: int)
    requires Rounding((x: real) => x) && 0 <= key < TWO64 && 0 <= a <= b < n < TWO31
    ensures Bucket((x: real) => x, key, a, b, n) == IntegerHash(key, b, n)
    decreases n - b
  {
    hide Tie, Target, Top, NextKey, Jump;
    var k := NextKey(key);
    ScrambleIsNext(key);
    ExactJump(k, b);
    JumpForward((x: real) => x, k, b);
    TargetAhead(b, Top(k));
    if Target(b, Top(k)) < n {
      ExactHashIsInteger(k, b, Target(b, Top(k)), n);
    }
  }

  lemma ExactJump(k: int, b: int)
    requires 0 <= k < TWO64 && 0 <= b < TWO31
    ensures Top(k) >= 0 && Jump((x: real) => x, k, b) == Target(b, Top(k))
  {
    hide Target;
    var y := Bracket(b, Top(k));
    var q, d := Target(b, Top(k)), (Top(k) + 1) as real;
    RealCancel(q as real + 1.0 - y, d);
    RealCancel(y - q as real, d);
  }

  lemma FirstIsNoTie(t: int)
    requires t >= 0
    ensures !Tie(0, t)
  {
  }

  /** Of two buckets a key gets the second exactly if bit 63 of its next key is set, whatever the rounding. */
  lemma TwoBuckets(rnd: real -> real, key: int)
    requires Binary64(rnd) && 0 <= key < TWO64
    ensures Rounding(rnd)
    ensures Bucket(rnd, key, 0, 0, 2) == 1 <==>
            (key * 2862933555777941757 + 1) % 0x1_0000_0000_0000_0000 >= 0x8000_0000_0000_0000
  {
    hide Binary64, Target, Jump, Tie, Top, NextKey;
    var k := NextKey(key);
    ScrambleIsNext(key);
    ScrambleIsNext(k);
    BinaryRounds(rnd);
    FirstIsNoTie(Top(k));
    JumpIs(rnd, k, 0);
    JumpForward(rnd, k, 0);
    JumpForward(rnd, NextKey(k), 1);
    LeavesExactly(0, Top(k), 2);
    TopHalf(key);
  }

  lemma TopHalf(key: int)
    ensures 0x8000_0000 < 2 * (Top(NextKey(key)) + 1) <==>
            (key * 2862933555777941757 + 1) % 0x1_0000_0000_0000_0000 >= 0x8000_0000_0000_0000
  {
  }

  // ---- how many keys go there ----

  /** The key before `k`. */
  function KeyBefore(k: int): (key: int)
    ensures 0 <= key < 0x1_0000_0000_0000_0000
  {
    (k - 1) * 16133697096952638549 % 0x1_0000_0000_0000_0000
  }

  lemma SameRemainder(x: int, c: int, y: int, m: int)
    requires m > 0 && x == y + c * m && 0 <= y < m
    ensures x % m == y
  {
    assert x / m == c by { QuotientIs(x, m, c); }
  }

  lemma QuotientIs(x: int, m: int, c: int)
    requires m > 0 && c * m <= x < (c + 1) * m
    ensures x / m == c
  {
    QuotientAtLeast(x, m, c);
    QuotientAtLeast(x, m, c + 1);
  }

  /** One step of the key generator is a bijection of the 64-bit keys. */
  lemma StepIsBijective(key: int)
    requires 0 <= key < 0x1_0000_0000_0000_0000
    ensures KeyBefore(NextKey(key)) == key && NextKey(KeyBefore(key)) == key
  {
    var m := 0x1_0000_0000_0000_0000;
    var x := key * 2862933555777941757 + 1;
    SameRemainder((x % m - 1) * 16133697096952638549,
                  key * 2503948805982125087 - x / m * 16133697096952638549, key, m);
    var y := (key - 1) * 16133697096952638549;
    SameRemainder(y % m * 2862933555777941757 + 1,
                  (key - 1) * 2503948805982125087 - y / m * 2862933555777941757, key, m);
  }

  function Below(n: nat): (s: set<int>)
    ensures forall i :: i in s <==> 0 <= i < n
  {
    if n == 0 then {} else Below(n - 1) + {n - 1}
  }

  lemma {:induction false} SizeBelow(n: nat)
    ensures |Below(n)| == n
  {
    if n > 0 { SizeBelow(n - 1); }
  }

  /** How many values of the top bits send a key from bucket `b` to bucket `n` or above. */
  function Share(b: int, n: int): (m: nat)
    requires 0 <= b < n
    ensures m <= 0x8000_0000
  {
    QuotientAtLeast((b + 1) * 0x8000_0000, n, 0x8000_0001);
    QuotientAtLeast((b + 1) * 0x8000_0000, n, 0);
    Scale(b + 1, n, 0x8000_0000);
    (b + 1) * 0x8000_0000 / n
  }

  lemma LeavesBelow(b: int, n: int, t: int)
    requires 0 <= b < n && t >= 0
    ensures Target(b, t) >= n <==> t < Share(b, n)
  {
    LeavesExactly(b, t, n);
    QuotientAtLeast((b + 1) * 0x8000_0000, n, t + 1);
    assert n * (t + 1) == (t + 1) * n;
  }

  /** Of the 2^31 values of the top bits, exactly the `(b + 1) / n`-th part, rounded down, sends a key from
      bucket `b` to bucket `n` or above. */
  lemma ShareThatLeaves(b: int, n: int)
    requires 0 <= b < n
    ensures |set t | 0 <= t < 0x8000_0000 && Target(b, t) >= n| == (b + 1) * 0x8000_0000 / n
  {
    hide Target;
    var m := Share(b, n);
    forall t | 0 <= t < 0x8000_0000 ensures Target(b, t) >= n <==> t in Below(m) { LeavesBelow(b, n, t); }
    assert (set t | 0 <= t < 0x8000_0000 && Target(b, t) >= n) == Below(m);
    SizeBelow(m);
  }

  lemma SizeBefore(s: set<int>)
    requires forall k :: k in s ==> 0 <= k < 0x1_0000_0000_0000_0000
    ensures |Image(s, KeyBefore)| == |s|
  {
    hide KeyBefore;
    forall k, l | k in s && l in s && KeyBefore(k) == KeyBefore(l) ensures k == l {
      StepIsBijective(k);
      StepIsBijective(l);
    }
    ImageSize(s, KeyBefore);
  }

  lemma TopBelow(k: int, m: int)
    ensures Top(k) < m <==> k < m * 0x2_0000_0000
  {
  }

  /** The same share of the 2^64 keys: for each of those values of the top bits 2^33 keys. */
  lemma KeysThatLeave(b: int, n: int)
    requires 0 <= b < n
    ensures |set key | 0 <= key < 0x1_0000_0000_0000_0000 && Top(NextKey(key)) < Share(b, n)|
         == (b + 1) * 0x8000_0000 / n * 0x2_0000_0000
    ensures forall key :: 0 <= key < 0x1_0000_0000_0000_0000 ==>
      Top(NextKey(key)) >= 0 && (Target(b, Top(NextKey(key))) >= n <==> Top(NextKey(key)) < Share(b, n))
  {
    hide Target, NextKey, KeyBefore, Share, Top;
    var m := Share(b, n);
    var keys := set key | 0 <= key < 0x1_0000_0000_0000_0000 && Top(NextKey(key)) < m;
    var nexts := Below(m * 0x2_0000_0000);
    forall key | 0 <= key < 0x1_0000_0000_0000_0000
      ensures key in keys <==> NextKey(key) in nexts
      ensures KeyBefore(NextKey(key)) == key
      ensures Top(NextKey(key)) >= 0 && (Target(b, Top(NextKey(key))) >= n <==> Top(NextKey(key)) < m)
    {
      TopBelow(NextKey(key), m);
      StepIsBijective(key);
      ScrambleIsNext(key);
      LeavesBelow(b, n, Top(NextKey(key)));
    }
    forall k | k in nexts ensures NextKey(KeyBefore(k)) == k { StepIsBijective(k); }
    assert keys == Image(nexts, KeyBefore);
    SizeBefore(nexts);
    SizeBelow(m * 0x2_0000_0000);
    ShareIs(b, n);
  }

  lemma ShareIs(b: int, n: int)
    requires 0 <= b < n
    ensures Share(b, n) == (b + 1) * 0x8000_0000 / n
  {
  }
}
