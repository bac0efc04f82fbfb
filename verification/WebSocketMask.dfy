/** WebSocket masking (section 5.3 of RFC 6455) by machine words, in place. */
module WebSocketMask {
  type Byte = bv8

  function XorByte(a: Byte, b: Byte): Byte { a ^ b }

  function XorWord(x: bv32, y: bv32): bv32 { x ^ y }

  function XorLong(x: bv64, y: bv64): bv64 { x ^ y }

  /** The key for the next byte. */
  function Turned(key: bv32): bv32 { key.RotateRight(8) }

  function Byte0(v: bv32): Byte { (v & 0xff) as bv8 }

  function Byte1(v: bv32): Byte { ((v >> 8) & 0xff) as bv8 }

  function Byte2(v: bv32): Byte { ((v >> 16) & 0xff) as bv8 }

  function Byte3(v: bv32): Byte { ((v >> 24) & 0xff) as bv8 }

  /** The key byte for position `i`; the key is little-endian. */
  function KeyByte(key: bv32, i: nat): Byte {
    if i % 4 == 0 then Byte0(key) else if i % 4 == 1 then Byte1(key) else if i % 4 == 2 then Byte2(key) else Byte3(key)
  }

  /** Masking as the standard states it: byte i with key byte i mod 4. */
  function Masked(s: seq<Byte>, key: bv32): seq<Byte> {
    seq(|s|, i requires 0 <= i < |s| => XorByte(s[i], KeyByte(key, i)))
  }

  /** `next` goes on where `key` is after `n` bytes. */
  ghost predicate Continues(next: bv32, key: bv32, n: nat) {
    forall j: nat :: KeyByte(next, j) == KeyByte(key, n + j)
  }

  // ---- bit by bit ----

  /** The byte whose only bit is bit `n`. */
  function UnitByte(n: nat): Byte {
    if n == 0 then 1 else UnitByte(n - 1) << 1
  }

  function UnitWord(n: nat): bv32 {
    if n == 0 then 1 else UnitWord(n - 1) << 1
  }

  predicate BitOfByte(b: Byte, n: nat) {
    b & UnitByte(n) != 0
  }

  predicate BitOfWord(w: bv32, n: nat) {
    w & UnitWord(n) != 0
  }

  lemma OneBit(n: nat)
    requires n < 8
    ensures UnitByte(n) != 0 && UnitByte(n) & (UnitByte(n) - 1) == 0
    ensures UnitWord(n) == UnitByte(n) as bv32
  {
    if n == 0 {} else if n == 1 {} else if n == 2 {} else if n == 3 {}
    else if n == 4 {} else if n == 5 {} else if n == 6 {} else {}
  }

  lemma EightOn(n: nat)
    ensures UnitWord(n + 8) == UnitWord(n) << 8
  {
    FourOn(n);
    FourOn(n + 4);
    Shifts(UnitWord(n));
  }

  lemma FourOn(n: nat)
    ensures UnitWord(n + 4) == (((UnitWord(n) << 1) << 1) << 1) << 1
  {
    assert UnitWord(n + 2) == (UnitWord(n) << 1) << 1;
  }

  lemma Shifts(w: bv32)
    ensures (((((((w << 1) << 1) << 1) << 1) << 1) << 1) << 1) << 1 == w << 8
  {
  }

  /** A single bit of an exclusive or. */
  lemma XorBit(a: Byte, b: Byte, m: Byte)
    requires m != 0 && m & (m - 1) == 0
    ensures XorByte(a, b) & m != 0 <==> (a & m != 0) != (b & m != 0)
  {
  }

  lemma KeyBits(key: bv32, m: Byte)
    ensures Byte0(key) & m != 0 <==> key & (m as bv32) != 0
    ensures Byte1(key) & m != 0 <==> key & ((m as bv32) << 8) != 0
    ensures Byte2(key) & m != 0 <==> key & (((m as bv32) << 8) << 8) != 0
    ensures Byte3(key) & m != 0 <==> key & ((((m as bv32) << 8) << 8) << 8) != 0
  {
  }

  lemma KeyBit(key: bv32, i: nat, n: nat)
    requires n < 8
    ensures BitOfByte(KeyByte(key, i), n) <==> BitOfWord(key, 8 * (i % 4) + n)
  {
    hide UnitByte, UnitWord, Byte0, Byte1, Byte2, Byte3;
    KeyBits(key, UnitByte(n));
    OneBit(n);
    EightOn(n);
    EightOn(n + 8);
    EightOn(n + 16);
  }

  /** Masking turns exactly the bits that are set in the key, which is repeated every four bytes. */
  lemma MaskedBit(s: seq<Byte>, key: bv32, i: nat, n: nat)
    requires i < |s| && n < 8
    ensures BitOfByte(Masked(s, key)[i], n) <==> BitOfByte(s[i], n) != BitOfWord(key, 8 * (i % 4) + n)
  {
    hide XorByte, KeyByte, BitOfWord, UnitByte;
    OneBit(n);
    XorBit(s[i], KeyByte(key, i), UnitByte(n));
    KeyBit(key, i, n);
  }

  // ---- laws ----

  lemma MaskTwice(s: seq<Byte>, key: bv32)
    ensures Masked(Masked(s, key), key) == s
  {
    hide KeyByte, XorByte;
    forall i | 0 <= i < |s| ensures Masked(Masked(s, key), key)[i] == s[i] {
      XorTwice(s[i], KeyByte(key, i));
    }
  }

  lemma XorTwice(b: Byte, k: Byte)
    ensures XorByte(XorByte(b, k), k) == b
  {
  }

  /** Masking in two pieces, the second with the continued key. */
  lemma MaskInPieces(a: seq<Byte>, b: seq<Byte>, key: bv32, next: bv32)
    requires Continues(next, key, |a|)
    ensures Masked(a + b, key) == Masked(a, key) + Masked(b, next)
  {
    hide KeyByte, XorByte;
    forall i | 0 <= i < |a| + |b|
      ensures Masked(a + b, key)[i] == (Masked(a, key) + Masked(b, next))[i]
    {
      if i >= |a| { assert KeyByte(next, i - |a|) == KeyByte(key, |a| + (i - |a|)); }
    }
  }

  lemma KeyBytesDecide(k: bv32, l: bv32)
    requires KeyByte(k, 0) == KeyByte(l, 0) && KeyByte(k, 1) == KeyByte(l, 1)
    requires KeyByte(k, 2) == KeyByte(l, 2) && KeyByte(k, 3) == KeyByte(l, 3)
    ensures k == l
  {
  }

  /** There is one key to go on with. */
  lemma OneContinuation(k: bv32, l: bv32, key: bv32, n: nat)
    requires Continues(k, key, n) && Continues(l, key, n)
    ensures k == l
  {
    hide KeyByte;
    KeyBytesDecide(k, l);
  }

  lemma ContinueTwice(last: bv32, next: bv32, key: bv32, m: nat, n: nat)
    requires Continues(next, key, m) && Continues(last, next, n)
    ensures Continues(last, key, m + n)
  {
    hide KeyByte;
    forall j: nat ensures KeyByte(last, j) == KeyByte(key, m + n + j) {
      assert KeyByte(last, j) == KeyByte(next, n + j) == KeyByte(key, m + (n + j));
    }
  }

  lemma TurnedContinues(key: bv32)
    ensures Continues(Turned(key), key, 1)
  {
    hide Byte0, Byte1, Byte2, Byte3, Turned;
    TurnedBytes(key);
    forall j: nat ensures KeyByte(Turned(key), j) == KeyByte(key, 1 + j) {
      assert (1 + j) % 4 == if j % 4 == 3 then 0 else j % 4 + 1;
    }
  }

  lemma TurnedBytes(key: bv32)
    ensures Byte0(Turned(key)) == Byte1(key) && Byte1(Turned(key)) == Byte2(key)
    ensures Byte2(Turned(key)) == Byte3(key) && Byte3(Turned(key)) == Byte0(key)
  {
  }

  // ---- words ----

  function Load32(a: Byte, b: Byte, c: Byte, d: Byte): bv32 {
    (a as bv32) | ((b as bv32) << 8) | ((c as bv32) << 16) | ((d as bv32) << 24)
  }

  function Load64(lo: bv32, hi: bv32): bv64 {
    (lo as bv64) | ((hi as bv64) << 32)
  }

  function Low(v: bv64): bv32 {
    (v & 0xffff_ffff) as bv32
  }

  function High(v: bv64): bv32 {
    (v >> 32) as bv32
  }

  lemma XorBytes(x: bv32, y: bv32)
    ensures Byte0(x ^ y) == Byte0(x) ^ Byte0(y) && Byte1(x ^ y) == Byte1(x) ^ Byte1(y)
    ensures Byte2(x ^ y) == Byte2(x) ^ Byte2(y) && Byte3(x ^ y) == Byte3(x) ^ Byte3(y)
  {
  }

  lemma LoadedBytes(a: Byte, b: Byte, c: Byte, d: Byte)
    ensures Byte0((a as bv32) | ((b as bv32) << 8) | ((c as bv32) << 16) | ((d as bv32) << 24)) == a
    ensures Byte1((a as bv32) | ((b as bv32) << 8) | ((c as bv32) << 16) | ((d as bv32) << 24)) == b
    ensures Byte2((a as bv32) | ((b as bv32) << 8) | ((c as bv32) << 16) | ((d as bv32) << 24)) == c
    ensures Byte3((a as bv32) | ((b as bv32) << 8) | ((c as bv32) << 16) | ((d as bv32) << 24)) == d
  {
  }

  /** A masked word holds the masked bytes. */
  lemma Xor32(a: Byte, b: Byte, c: Byte, d: Byte, key: bv32)
    ensures var v := XorWord(Load32(a, b, c, d), key);
      Byte0(v) == XorByte(a, Byte0(key)) && Byte1(v) == XorByte(b, Byte1(key))
      && Byte2(v) == XorByte(c, Byte2(key)) && Byte3(v) == XorByte(d, Byte3(key))
  {
    hide *;
    LoadedWord(a, b, c, d);
    XorredBytes(Load32(a, b, c, d), key);
  }

  lemma LoadedWord(a: Byte, b: Byte, c: Byte, d: Byte)
    ensures var v := Load32(a, b, c, d); Byte0(v) == a && Byte1(v) == b && Byte2(v) == c && Byte3(v) == d
  {
    hide Byte0, Byte1, Byte2, Byte3;
    LoadedBytes(a, b, c, d);
  }

  lemma XorredBytes(x: bv32, y: bv32)
    ensures var v := XorWord(x, y);
      Byte0(v) == XorByte(Byte0(x), Byte0(y)) && Byte1(v) == XorByte(Byte1(x), Byte1(y))
      && Byte2(v) == XorByte(Byte2(x), Byte2(y)) && Byte3(v) == XorByte(Byte3(x), Byte3(y))
  {
    hide Byte0, Byte1, Byte2, Byte3;
    XorBytes(x, y);
  }

  lemma Xor64(lo: bv32, hi: bv32, key: bv32)
    ensures Low(XorLong(Load64(lo, hi), Load64(key, key))) == XorWord(lo, key)
    ensures High(XorLong(Load64(lo, hi), Load64(key, key))) == XorWord(hi, key)
  {
  }

  // ---- the loops ----

  /** The first `at` bytes are masked, the others are as they were. */
  ghost predicate MaskedTo(now: seq<Byte>, was: seq<Byte>, key: bv32, at: nat) {
    && |now| == |was| && at <= |was|
    && (forall i :: 0 <= i < at ==> now[i] == XorByte(was[i], KeyByte(key, i)))
    && (forall i :: at <= i < |was| ==> now[i] == was[i])
  }

  method Put32(b: array<Byte>, at: nat, v: bv32)
    requires at + 4 <= b.Length
    modifies b
    ensures b[..] == With32(old(b[..]), at, v)
  {
    b[at], b[at + 1], b[at + 2], b[at + 3] := Byte0(v), Byte1(v), Byte2(v), Byte3(v);
  }

  function With32(s: seq<Byte>, at: nat, v: bv32): seq<Byte>
    requires at + 4 <= |s|
  {
    s[at := Byte0(v)][at + 1 := Byte1(v)][at + 2 := Byte2(v)][at + 3 := Byte3(v)]
  }

  lemma Advance(now: seq<Byte>, was: seq<Byte>, key: bv32, at: nat)
    requires at % 4 == 0 && at + 4 <= |now| && MaskedTo(now, was, key, at)
    ensures var v := Load32(now[at], now[at + 1], now[at + 2], now[at + 3]);
      MaskedTo(With32(now, at, XorWord(v, key)), was, key, at + 4)
  {
    hide Byte0, Byte1, Byte2, Byte3, XorByte, XorWord, Load32;
    Xor32(now[at], now[at + 1], now[at + 2], now[at + 3], key);
  }

  /** Masks the four bytes from `at`. */
  method XorWord32(b: array<Byte>, at: nat, key: bv32, ghost was: seq<Byte>)
    requires at % 4 == 0 && at + 4 <= b.Length && MaskedTo(b[..], was, key, at)
    modifies b
    ensures MaskedTo(b[..], was, key, at + 4)
  {
    hide Byte0, Byte1, Byte2, Byte3, XorByte, XorWord, Load32, MaskedTo;
    Advance(b[..], was, key, at);
    var v := Load32(b[at], b[at + 1], b[at + 2], b[at + 3]);
    Put32(b, at, XorWord(v, key));
  }

  /** Masks the eight bytes from `at` with the doubled key. */
  method XorWord64(b: array<Byte>, at: nat, key: bv32, key64: bv64, ghost was: seq<Byte>)
    requires at % 4 == 0 && at + 8 <= b.Length && MaskedTo(b[..], was, key, at) && key64 == Load64(key, key)
    modifies b
    ensures MaskedTo(b[..], was, key, at + 8)
  {
    hide Byte0, Byte1, Byte2, Byte3, XorByte, XorWord, XorLong, Load32, Load64, Low, High, MaskedTo;
    var lo := Load32(b[at], b[at + 1], b[at + 2], b[at + 3]);
    var hi := Load32(b[at + 4], b[at + 5], b[at + 6], b[at + 7]);
    var v := Load64(lo, hi);
    Xor64(lo, hi, key);
    Advance(b[..], was, key, at);
    Put32(b, at, Low(XorLong(v, key64)));
    Advance(b[..], was, key, at + 4);
    Put32(b, at + 4, High(XorLong(v, key64)));
  }

  /** One pass of an unrolled loop: `words` words of eight bytes. */
  method XorWords(b: array<Byte>, start: nat, words: nat, key: bv32, key64: bv64, ghost was: seq<Byte>)
    requires start % 4 == 0 && start + 8 * words <= b.Length && MaskedTo(b[..], was, key, start)
    requires key64 == Load64(key, key)
    modifies b
    ensures MaskedTo(b[..], was, key, start + 8 * words)
  {
    hide MaskedTo, Load64;
    for n := 0 to words
      invariant MaskedTo(b[..], was, key, start + 8 * n)
    {
      XorWord64(b, start + 8 * n, key, key64, was);
    }
  }

  /** All passes of one unrolled loop, from `start` while a pass fits. */
  method XorWhileFits(b: array<Byte>, start: nat, words: nat, key: bv32, key64: bv64, ghost was: seq<Byte>)
      returns (at: nat)
    requires start % 4 == 0 && words > 0 && MaskedTo(b[..], was, key, start) && key64 == Load64(key, key)
    modifies b
    ensures start <= at && at % 4 == 0 && MaskedTo(b[..], was, key, at)
    ensures b.Length - at < 8 * words
  {
    hide MaskedTo, Load64;
    at := start;
    while b.Length - at >= 8 * words
      invariant start <= at && at % 4 == 0 && MaskedTo(b[..], was, key, at)
    {
      XorWords(b, at, words, key, key64, was);
      at := at + 8 * words;
    }
  }

  method MaskWebSocket(key: bv32, b: array<Byte>) returns (next: bv32)
    modifies b
    ensures b[..] == Masked(old(b[..]), key)
    ensures Continues(next, key, b.Length)
  {
    hide MaskedTo, Masked, Continues, Load64;
    ghost var was := b[..];
    var at := 0;
    Untouched(was, key);
    if b.Length >= 8 {
      var key64 := Load64(key, key);
      at := XorWhileFits(b, at, 16, key, key64, was);
      at := XorWhileFits(b, at, 8, key, key64, was);
      at := XorWhileFits(b, at, 4, key, key64, was);
      at := XorWhileFits(b, at, 2, key, key64, was);
      at := XorWhileFits(b, at, 1, key, key64, was);
    }
    Bound(b[..], was, key, at);
    while b.Length - at >= 4
      invariant at % 4 == 0 && at <= b.Length && MaskedTo(b[..], was, key, at)
    {
      XorWord32(b, at, key, was);
      at := at + 4;
    }
    next := MaskRemaining(b, at, key, was);
    AllMasked(b[..], was, key);
  }

  /** The bytes behind the last word; the key turns with each. */
  method MaskRemaining(b: array<Byte>, at: nat, key: bv32, ghost was: seq<Byte>) returns (next: bv32)
    requires at % 4 == 0 && at <= b.Length && MaskedTo(b[..], was, key, at)
    modifies b
    ensures MaskedTo(b[..], was, key, b.Length) && Continues(next, key, b.Length)
  {
    hide MaskedTo, Continues, KeyByte, Byte0, Turned;
    next := key;
    SameKey(key, at);
    for i := at to b.Length
      invariant MaskedTo(b[..], was, key, i) && Continues(next, key, i)
    {
      FirstByte(next, key, i);
      MaskOne(b, i, key, Byte0(next), was);
      TurnedContinues(next);
      ContinueTwice(Turned(next), next, key, i, 1);
      next := Turned(next);
    }
  }

  lemma Untouched(was: seq<Byte>, key: bv32)
    ensures MaskedTo(was, was, key, 0)
  {
  }

  lemma Bound(now: seq<Byte>, was: seq<Byte>, key: bv32, at: nat)
    requires MaskedTo(now, was, key, at)
    ensures at <= |now|
  {
  }

  lemma SameKey(key: bv32, at: nat)
    requires at % 4 == 0
    ensures Continues(key, key, at)
  {
    forall j: nat ensures KeyByte(key, j) == KeyByte(key, at + j) {
      assert (at + j) % 4 == j % 4;
    }
  }

  lemma FirstByte(next: bv32, key: bv32, i: nat)
    requires Continues(next, key, i)
    ensures Byte0(next) == KeyByte(key, i)
  {
    assert KeyByte(next, 0) == KeyByte(key, i + 0);
  }

  method MaskOne(b: array<Byte>, i: nat, key: bv32, k: Byte, ghost was: seq<Byte>)
    requires i < b.Length && MaskedTo(b[..], was, key, i) && k == KeyByte(key, i)
    modifies b
    ensures MaskedTo(b[..], was, key, i + 1)
  {
    hide KeyByte, XorByte;
    b[i] := XorByte(b[i], k);
  }

  lemma AllMasked(now: seq<Byte>, was: seq<Byte>, key: bv32)
    requires MaskedTo(now, was, key, |now|)
    ensures now == Masked(was, key)
  {
    hide KeyByte;
  }
}
