/** Murmur3 of a byte string as a function, and why no single block and no seed can be confused
    with another. */
module MurmurSpec {
  type Byte = bv8

  /** Four bytes as the machine reads them, lowest first. */
  function Word(a: Byte, b: Byte, c: Byte, d: Byte): bv32 {
    (a as bv32) ^ ((b as bv32) << 8) ^ ((c as bv32) << 16) ^ ((d as bv32) << 24)
  }

  // The steps on one 32-bit word.

  function Xor(x: bv32, y: bv32): bv32 { x ^ y }

  function Stir1(x: bv32): bv32 { x * 0xcc9e2d51 }

  function Turn15(x: bv32): bv32 { x.RotateLeft(15) }

  function Stir2(x: bv32): bv32 { x * 0x1b873593 }

  function Turn13(x: bv32): bv32 { x.RotateLeft(13) }

  function Shift5(x: bv32): bv32 { x * 4 + x + 0xe6546b64 }

  function Fold16(x: bv32): bv32 { x ^ (x >> 16) }

  function Final1(x: bv32): bv32 { x * 0x85ebca6b }

  function Fold13(x: bv32): bv32 { x ^ (x >> 13) }

  function Final2(x: bv32): bv32 { x * 0xc2b2ae35 }

  function Scrambled(k: bv32): bv32 {
    Stir2(Turn15(Stir1(k)))
  }

  function Mixed(h: bv32, k: bv32): bv32 {
    Shift5(Turn13(Xor(h, Scrambled(k))))
  }

  function Finished(h: bv32): bv32 {
    Fold16(Final2(Fold13(Final1(Fold16(h)))))
  }

  /** The running hash after all full blocks of `data`. */
  function Blocks(h: bv32, data: seq<Byte>): bv32
    decreases |data|
  {
    if |data| < 4 then h else Blocks(Mixed(h, Word(data[0], data[1], data[2], data[3])), data[4..])
  }

  /** The bytes behind the last full block. */
  function Rest(data: seq<Byte>): (r: seq<Byte>)
    ensures |r| < 4 && |r| == |data| % 4
  {
    data[|data| / 4 * 4..]
  }

  function WithRest(h: bv32, rest: seq<Byte>): bv32
    requires |rest| < 4
  {
    if |rest| == 0 then h
    else Xor(h, Scrambled(Word(rest[0], if |rest| > 1 then rest[1] else 0, if |rest| > 2 then rest[2] else 0, 0)))
  }

  function Low32(n: nat): bv32 {
    (n % 0x1_0000_0000) as bv32
  }

  function Sum(data: seq<Byte>, seed: bv32): bv32 {
    Finished(Xor(WithRest(Blocks(seed, data), Rest(data)), Low32(|data|)))
  }

  lemma NextBlock(h: bv32, data: seq<Byte>, i: nat)
    requires 4 * i + 4 <= |data|
    ensures Blocks(h, data[4 * i..])
         == Blocks(Mixed(h, Word(data[4 * i], data[4 * i + 1], data[4 * i + 2], data[4 * i + 3])), data[4 * (i + 1)..])
  {
    hide Mixed, Word;
    assert data[4 * i..][4..] == data[4 * (i + 1)..];
  }

  lemma LastBlock(h: bv32, data: seq<Byte>, n: nat)
    requires n == |data| / 4
    ensures 4 * n <= |data| && Blocks(h, data[4 * n..]) == h && data[4 * n..] == Rest(data)
  {
  }

  // ---- cutting the data ----

  lemma {:induction false} BlocksAppend(h: bv32, a: seq<Byte>, b: seq<Byte>)
    requires |a| % 4 == 0
    ensures Blocks(h, a + b) == Blocks(Blocks(h, a), b)
    decreases |a|
  {
    hide Mixed, Word;
    if |a| == 0 {
      assert a + b == b;
    } else {
      assert (a + b)[4..] == a[4..] + b;
      BlocksAppend(Mixed(h, Word(a[0], a[1], a[2], a[3])), a[4..], b);
    }
  }

  lemma RestAppend(a: seq<Byte>, b: seq<Byte>)
    requires |a| % 4 == 0
    ensures Rest(a + b) == Rest(b)
  {
    assert |a + b| / 4 * 4 == |a| + |b| / 4 * 4;
  }

  /** Pending bytes go in front of what follows: the state after `a` is its full blocks and its rest. */
  lemma Continue(h: bv32, a: seq<Byte>, b: seq<Byte>)
    ensures Blocks(h, a + b) == Blocks(Blocks(h, a), Rest(a) + b)
    ensures Rest(a + b) == Rest(Rest(a) + b)
  {
    hide Mixed, Word;
    var full := a[..|a| / 4 * 4];
    assert a == full + Rest(a);
    assert a + b == full + (Rest(a) + b);
    BlocksAppend(h, full, Rest(a) + b);
    BlocksAppend(h, full, Rest(a));
    RestAppend(full, Rest(a) + b);
  }

  // ---- nothing is lost in one block ----

  // What undoes each step; Fold16 undoes itself.

  function UnStir1(x: bv32): bv32 { x * 0xdee13bb1 }

  function UnTurn15(x: bv32): bv32 { x.RotateRight(15) }

  function UnStir2(x: bv32): bv32 { x * 0x56ed309b }

  function UnTurn13(x: bv32): bv32 { x.RotateRight(13) }

  function UnShift5(x: bv32): bv32 { (x - 0xe6546b64) * 0xcccccccd }

  function UnFinal1(x: bv32): bv32 { x * 0xa5cb9243 }

  function UnFold13(x: bv32): bv32 { x ^ (x >> 13) ^ (x >> 26) }

  function UnFinal2(x: bv32): bv32 { x * 0x7ed1b41d }

  lemma OddFactorsCancel(x: bv32)
    ensures UnStir1(x * 0xcc9e2d51) == x && UnStir2(x * 0x1b873593) == x
    ensures UnFinal1(x * 0x85ebca6b) == x && UnFinal2(x * 0xc2b2ae35) == x
    ensures UnShift5(x * 4 + x + 0xe6546b64) == x
  {
  }

  lemma TurnsAndFoldsCancel(x: bv32)
    ensures UnTurn15(x.RotateLeft(15)) == x && UnTurn13(x.RotateLeft(13)) == x
    ensures Fold16(x ^ (x >> 16)) == x && UnFold13(x ^ (x >> 13)) == x
  {
  }

  lemma StepsUndone(x: bv32)
    ensures UnStir1(Stir1(x)) == UnStir2(Stir2(x)) == UnShift5(Shift5(x)) == x
    ensures UnFinal1(Final1(x)) == UnFinal2(Final2(x)) == x
    ensures UnTurn15(Turn15(x)) == UnTurn13(Turn13(x)) == x
    ensures Fold16(Fold16(x)) == UnFold13(Fold13(x)) == x
  {
    hide UnStir1, UnStir2, UnShift5, UnFinal1, UnFinal2, UnTurn15, UnTurn13, UnFold13;
    OddFactorsCancel(x);
    TurnsAndFoldsCancel(x);
  }

  lemma XorInjective(x: bv32, y: bv32, z: bv32)
    ensures Xor(x, z) == Xor(y, z) ==> x == y
    ensures Xor(z, x) == Xor(z, y) ==> x == y
  {
  }

  lemma ScrambledInjective(k: bv32, l: bv32)
    ensures Scrambled(k) == Scrambled(l) ==> k == l
  {
    hide Xor, Stir1, Turn15, Stir2, Turn13, Shift5, Fold16, Final1, Fold13, Final2, UnStir1, UnTurn15, UnStir2,
      UnTurn13, UnShift5, UnFinal1, UnFold13, UnFinal2;
    StepsUndone(Turn15(Stir1(k)));
    StepsUndone(Turn15(Stir1(l)));
    StepsUndone(Stir1(k));
    StepsUndone(Stir1(l));
    StepsUndone(k);
    StepsUndone(l);
  }

  /** A full block can be undone: the running hash and the word decide each other. */
  lemma MixedInjective(g: bv32, k: bv32, h: bv32, l: bv32)
    ensures Mixed(g, k) == Mixed(h, l) ==> (g == h <==> k == l)
  {
    hide Scrambled, Xor, Stir1, Turn15, Stir2, Turn13, Shift5, Fold16, Final1, Fold13, Final2, UnStir1, UnTurn15,
      UnStir2,
      UnTurn13, UnShift5, UnFinal1, UnFold13, UnFinal2;
    var x, y := Xor(g, Scrambled(k)), Xor(h, Scrambled(l));
    StepsUndone(Turn13(x));
    StepsUndone(Turn13(y));
    StepsUndone(x);
    StepsUndone(y);
    XorInjective(Scrambled(k), Scrambled(l), g);
    XorInjective(g, h, Scrambled(k));
    ScrambledInjective(k, l);
  }

  lemma FinishedInjective(g: bv32, h: bv32)
    ensures Finished(g) == Finished(h) ==> g == h
  {
    hide Xor, Stir1, Turn15, Stir2, Turn13, Shift5, Fold16, Final1, Fold13, Final2, UnStir1, UnTurn15, UnStir2,
      UnTurn13, UnShift5, UnFinal1, UnFold13, UnFinal2;
    var a, b := Final1(Fold16(g)), Final1(Fold16(h));
    StepsUndone(Final2(Fold13(a)));
    StepsUndone(Final2(Fold13(b)));
    StepsUndone(Fold13(a));
    StepsUndone(Fold13(b));
    StepsUndone(a);
    StepsUndone(b);
    StepsUndone(Fold16(g));
    StepsUndone(Fold16(h));
    StepsUndone(g);
    StepsUndone(h);
  }

  lemma {:induction false} BlocksInjective(g: bv32, h: bv32, data: seq<Byte>)
    ensures Blocks(g, data) == Blocks(h, data) ==> g == h
    decreases |data|
  {
    hide Mixed, Word;
    if |data| >= 4 {
      var k := Word(data[0], data[1], data[2], data[3]);
      BlocksInjective(Mixed(g, k), Mixed(h, k), data[4..]);
      MixedInjective(g, k, h, k);
    }
  }

  lemma WithRestInjective(g: bv32, h: bv32, rest: seq<Byte>)
    requires |rest| < 4
    ensures WithRest(g, rest) == WithRest(h, rest) ==> g == h
  {
    hide Scrambled, Xor, Word;
    if |rest| > 0 {
      var b, c := if |rest| > 1 then rest[1] else 0, if |rest| > 2 then rest[2] else 0;
      XorInjective(g, h, Scrambled(Word(rest[0], b, c, 0)));
    }
  }

  lemma SumDecides(g: bv32, h: bv32, rest: seq<Byte>, n: nat)
    requires |rest| < 4
    ensures Finished(Xor(WithRest(g, rest), Low32(n))) == Finished(Xor(WithRest(h, rest), Low32(n))) ==> g == h
  {
    hide Finished, Xor, WithRest, Low32;
    FinishedInjective(Xor(WithRest(g, rest), Low32(n)), Xor(WithRest(h, rest), Low32(n)));
    XorInjective(WithRest(g, rest), WithRest(h, rest), Low32(n));
    WithRestInjective(g, h, rest);
  }

  /** Two seeds never give the same hash of the same data. */
  lemma SeedDecides(data: seq<Byte>, g: bv32, h: bv32)
    ensures Sum(data, g) == Sum(data, h) ==> g == h
  {
    hide Finished, Xor, WithRest, Low32, Blocks, Rest;
    SumDecides(Blocks(g, data), Blocks(h, data), Rest(data), |data|);
    BlocksInjective(g, h, data);
  }

  lemma WordInjective(a: Byte, b: Byte, c: Byte, d: Byte, e: Byte, f: Byte, g: Byte, h: Byte)
    ensures Word(a, b, c, d) == Word(e, f, g, h) ==> a == e && b == f && c == g && d == h
  {
  }

  lemma OneBlock(h: bv32, x: seq<Byte>)
    requires |x| == 4
    ensures Blocks(h, x) == Mixed(h, Word(x[0], x[1], x[2], x[3]))
  {
    hide Word, Mixed;
    assert Blocks(Mixed(h, Word(x[0], x[1], x[2], x[3])), x[4..]) == Mixed(h, Word(x[0], x[1], x[2], x[3]));
  }

  lemma BlockInjective(h: bv32, x: seq<Byte>, y: seq<Byte>)
    requires |x| == |y| == 4
    ensures Blocks(h, x) == Blocks(h, y) ==> x == y
  {
    hide Word, Mixed, Blocks;
    OneBlock(h, x);
    OneBlock(h, y);
    MixedInjective(h, Word(x[0], x[1], x[2], x[3]), h, Word(y[0], y[1], y[2], y[3]));
    WordInjective(x[0], x[1], x[2], x[3], y[0], y[1], y[2], y[3]);
  }

  /** Data that differ in one full block only never have the same hash. */
  lemma BlockDecides(pre: seq<Byte>, x: seq<Byte>, y: seq<Byte>, post: seq<Byte>, seed: bv32)
    requires |pre| % 4 == 0 && |x| == |y| == 4
    ensures Sum(pre + x + post, seed) == Sum(pre + y + post, seed) ==> x == y
  {
    hide Finished, Xor, WithRest, Low32, Blocks, Rest;
    var p := Blocks(seed, pre);
    RestAppend(pre + x, post);
    RestAppend(pre + y, post);
    BlocksAppend(seed, pre + x, post);
    BlocksAppend(seed, pre + y, post);
    BlocksAppend(seed, pre, x);
    BlocksAppend(seed, pre, y);
    SumDecides(Blocks(Blocks(p, x), post), Blocks(Blocks(p, y), post), Rest(post), |pre| + 4 + |post|);
    BlocksInjective(Blocks(p, x), Blocks(p, y), post);
    BlockInjective(p, x, y);
  }

  lemma WithRestDecides(h: bv32, x: seq<Byte>, y: seq<Byte>)
    requires |x| == |y| < 4
    ensures WithRest(h, x) == WithRest(h, y) ==> x == y
  {
    hide Scrambled, Xor, Word;
    if |x| > 0 {
      var b, c := if |x| > 1 then x[1] else 0, if |x| > 2 then x[2] else 0;
      var d, e := if |y| > 1 then y[1] else 0, if |y| > 2 then y[2] else 0;
      XorInjective(Scrambled(Word(x[0], b, c, 0)), Scrambled(Word(y[0], d, e, 0)), h);
      ScrambledInjective(Word(x[0], b, c, 0), Word(y[0], d, e, 0));
      WordInjective(x[0], b, c, 0, y[0], d, e, 0);
    }
  }

  /** The same for the bytes behind the last full block. */
  lemma RestDecides(pre: seq<Byte>, x: seq<Byte>, y: seq<Byte>, seed: bv32)
    requires |pre| % 4 == 0 && |x| == |y| < 4
    ensures Sum(pre + x, seed) == Sum(pre + y, seed) ==> x == y
  {
    hide Finished, WithRest, Xor, Low32, Blocks, Rest;
    var h, n := Blocks(seed, pre), Low32(|pre| + |x|);
    BlocksAppend(seed, pre, x);
    BlocksAppend(seed, pre, y);
    RestAppend(pre, x);
    RestAppend(pre, y);
    LastBlock(h, x, 0);
    LastBlock(h, y, 0);
    assert x[4 * 0..] == x && y[4 * 0..] == y;
    FinishedInjective(Xor(WithRest(h, x), n), Xor(WithRest(h, y), n));
    XorInjective(WithRest(h, x), WithRest(h, y), n);
    WithRestDecides(h, x, y);
  }
}
