/** Powers of two and the bits of numbers. */
module Powers {
  function Pow2(k: nat): (p: nat)
    ensures p > 0
  {
    if k == 0 then 1 else 2 * Pow2(k - 1)
  }

  /** `x` without its `k` lowest bits. */
  function ShiftRight(x: nat, k: nat): nat {
    if k == 0 then x else ShiftRight(x / 2, k - 1)
  }

  /** The bit of weight 2^k. */
  function BitAt(x: nat, k: nat): nat {
    x / Pow2(k) % 2
  }

  lemma Quotient(x: nat, d: nat)
    requires d > 0
    ensures x / d * d <= x < x / d * d + d
  {
  }

  lemma Monotone(a: int, b: int, d: nat)
    ensures a <= b ==> a * d <= b * d
  {
  }

  /** A quotient is determined by its bounds. */
  lemma Between(x: nat, d: nat, q: nat)
    requires d > 0 && q * d <= x < q * d + d
    ensures x / d == q
  {
    var p := x / d;
    Quotient(x, d);
    Monotone(p + 1, q, d);
    Monotone(q + 1, p, d);
  }

  lemma HalfFirst(x: nat, d: nat)
    requires d > 0
    ensures x / (2 * d) == x / 2 / d
  {
    var h := x / 2;
    var q := h / d;
    Quotient(h, d);
    assert q * (2 * d) == 2 * (q * d);
    Between(x, 2 * d, q);
  }

  lemma HalfLast(x: nat, d: nat)
    requires d > 0
    ensures x / (2 * d) == x / d / 2
  {
    var p := x / d;
    var r := p / 2;
    Quotient(x, d);
    Monotone(2 * r, p, d);
    Monotone(p + 1, 2 * r + 2, d);
    assert r * (2 * d) == (2 * r) * d;
    Between(x, 2 * d, r);
  }

  lemma RemainderIs(x: nat, d: nat)
    requires d > 0
    ensures x % d == x - x / d * d
  {
  }

  lemma DoubleTimes(q: nat, d: nat)
    ensures q * (2 * d) == 2 * (q * d) && (2 * q + 1) * d == 2 * (q * d) + d && (2 * q) * d == 2 * (q * d)
  {
  }

  /** The remainder by the next power has one more bit. */
  lemma LastBit(x: nat, d: nat)
    requires d > 0
    ensures x % (2 * d) == if x / d % 2 == 0 then x % d else x % d + d
  {
    HalfLast(x, d);
    RemainderIs(x, d);
    RemainderIs(x, 2 * d);
    DoubleTimes(x / d / 2, d);
  }

  lemma {:induction false} ShiftIsQuotient(x: nat, k: nat)
    ensures ShiftRight(x, k) == x / Pow2(k)
  {
    if k > 0 {
      ShiftIsQuotient(x / 2, k - 1);
      HalfFirst(x, Pow2(k - 1));
    }
  }

  lemma {:induction false} Pow2Add(i: nat, j: nat)
    ensures Pow2(i + j) == Pow2(i) * Pow2(j)
  {
    if i > 0 {
      Pow2Add(i - 1, j);
      assert Pow2(i + j) == 2 * Pow2(i - 1 + j);
    }
  }

  lemma Pow2Known()
    ensures Pow2(32) == 0x1_0000_0000 && Pow2(64) == 0x1_0000_0000_0000_0000
    ensures Pow2(128) == Pow2(64) * Pow2(64)
  {
    assert Pow2(8) == 256;
    Pow2Add(8, 8);
    Pow2Add(16, 16);
    Pow2Add(32, 32);
    Pow2Add(64, 64);
  }
}
