/** Which addresses a CIDR contains, and which the expansion into whole groups covers. */
module CidrSpec {
  import opened Powers

  type byte = b: int | 0 <= b < 256

  type Bytes = seq<byte>

  /** An IPv4 or IPv6 network: its address bytes and the length of its mask. */
  datatype Cidr = Cidr(ip: Bytes, mask: nat)

  predicate IsV4(ip: Bytes) {
    |ip| == 4
  }

  /** Four or sixteen bytes and a mask within them. */
  predicate Sized(c: Cidr) {
    (|c.ip| == 4 || |c.ip| == 16) && c.mask <= 8 * |c.ip|
  }

  /** The highest bit of a byte is bit 0. */
  function ByteBit(x: byte, j: nat): nat
    requires j < 8
  {
    x / Pow2(7 - j) % 2
  }

  /** Bit `i` of an address, the highest bit of the first byte being bit 0. */
  function Bit(ip: Bytes, i: nat): nat
    requires i < 8 * |ip|
  {
    ByteBit(ip[i / 8], i % 8)
  }

  /** The first `mask` bits agree. */
  predicate Contains(c: Cidr, ip: Bytes)
    requires Sized(c)
  {
    |ip| == |c.ip| && forall i: nat :: i < c.mask ==> Bit(ip, i) == Bit(c.ip, i)
  }

  /** The byte in which the mask ends has no host bits set. */
  predicate Aligned(c: Cidr)
    requires Sized(c)
  {
    forall i: nat :: c.mask < i + 1 <= (c.mask + 7) / 8 * 8 ==> Bit(c.ip, i) == 0
  }

  // ---- bits and bytes ----

  /** One more bit of a byte. */
  lemma BitStep(x: byte, k: nat)
    requires 0 < k <= 8
    ensures x / Pow2(8 - k) == 2 * (x / Pow2(9 - k)) + ByteBit(x, k - 1)
  {
    var d := Pow2(8 - k);
    assert Pow2(9 - k) == 2 * d;
    HalfLast(x, d);
  }

  lemma NoBits(x: byte)
    ensures x / Pow2(8) == 0 && x / Pow2(0) == x && x % Pow2(0) == 0
  {
    assert Pow2(8) == 256;
  }

  predicate SameBits(x: byte, y: byte, k: nat)
    requires k <= 8
  {
    forall j: nat :: j < k ==> ByteBit(x, j) == ByteBit(y, j)
  }

  /** The first bits of two bytes agree exactly if the bytes agree without the others. */
  lemma {:induction false} BitsOfQuotient(x: byte, y: byte, k: nat)
    requires k <= 8
    ensures SameBits(x, y, k) <==> x / Pow2(8 - k) == y / Pow2(8 - k)
  {
    hide Pow2, ByteBit;
    if k == 0 {
      NoBits(x);
      NoBits(y);
    } else {
      BitsOfQuotient(x, y, k - 1);
      BitStep(x, k);
      BitStep(y, k);
      BitRange(x, k - 1);
      BitRange(y, k - 1);
      assert SameBits(x, y, k) <==> SameBits(x, y, k - 1) && ByteBit(x, k - 1) == ByteBit(y, k - 1);
    }
  }

  lemma BitRange(x: byte, j: nat)
    requires j < 8
    ensures 0 <= ByteBit(x, j) < 2
  {
  }

  predicate ClearBits(x: byte, k: nat) {
    forall j: nat :: k <= j < 8 ==> ByteBit(x, j) == 0
  }

  /** No bit is set behind the first `k` ones. */
  lemma {:induction false} ClearIsMultiple(x: byte, k: nat)
    requires k <= 8
    ensures ClearBits(x, k) <==> x % Pow2(8 - k) == 0
    decreases 8 - k
  {
    hide Pow2, ByteBit;
    NoBits(x);
    if k < 8 {
      ClearIsMultiple(x, k + 1);
      BitIs(x, k);
      LastBit(x, Pow2(7 - k));
      BitRange(x, k);
      assert ClearBits(x, k) <==> ByteBit(x, k) == 0 && ClearBits(x, k + 1);
    }
  }

  lemma BitIs(x: byte, j: nat)
    requires j < 8
    ensures ByteBit(x, j) == x / Pow2(7 - j) % 2 && Pow2(8 - j) == 2 * Pow2(7 - j)
  {
  }

  /** The same in bytes. */
  predicate InBytes(c: Cidr, ip: Bytes)
    requires Sized(c) && |ip| == |c.ip|
  {
    && ip[..c.mask / 8] == c.ip[..c.mask / 8]
    && (c.mask % 8 != 0 ==> ip[c.mask / 8] / Block(c.mask % 8) == c.ip[c.mask / 8] / Block(c.mask % 8))
  }

  predicate ClearByte(c: Cidr)
    requires Sized(c)
  {
    c.mask % 8 != 0 ==> c.ip[c.mask / 8] % Block(c.mask % 8) == 0
  }

  predicate SameByte(c: Cidr, ip: Bytes, m: nat)
    requires |ip| == |c.ip| && m < |ip|
  {
    SameBits(ip[m], c.ip[m], if c.mask >= 8 * m + 8 then 8 else if c.mask <= 8 * m then 0 else c.mask - 8 * m)
  }

  lemma ByteByByte(c: Cidr, ip: Bytes)
    requires Sized(c) && |ip| == |c.ip|
    ensures Contains(c, ip) <==> forall m :: 0 <= m < |ip| ==> SameByte(c, ip, m)
  {
    hide ByteBit;
    if Contains(c, ip) {
      forall m, j | 0 <= m < |ip| && 0 <= j < 8 && 8 * m + j < c.mask ensures ByteBit(ip[m], j) == ByteBit(c.ip[m], j) {
        assert (8 * m + j) / 8 == m && (8 * m + j) % 8 == j;
        assert Bit(ip, 8 * m + j) == Bit(c.ip, 8 * m + j);
      }
    }
    if forall m :: 0 <= m < |ip| ==> SameByte(c, ip, m) {
      forall i: nat | i < c.mask ensures Bit(ip, i) == Bit(c.ip, i) {
        assert SameByte(c, ip, i / 8);
      }
    }
  }

  /** Agreeing in bits is agreeing in whole bytes and in the quotient of the byte in which the mask ends. */
  lemma ContainsInBytes(c: Cidr, ip: Bytes)
    requires Sized(c) && |ip| == |c.ip|
    ensures Contains(c, ip) <==> InBytes(c, ip)
  {
    hide Contains, SameBits, Pow2, Block;
    ByteByByte(c, ip);
    var n, k := c.mask / 8, c.mask % 8;
    forall m | 0 <= m < |ip|
      ensures m < n ==> (SameByte(c, ip, m) <==> ip[m] == c.ip[m])
      ensures m == n ==> (SameByte(c, ip, m) <==> k == 0 || ip[m] / Block(k) == c.ip[m] / Block(k))
      ensures m > n ==> SameByte(c, ip, m)
    {
      NoBits(ip[m]);
      NoBits(c.ip[m]);
      BitsOfQuotient(ip[m], c.ip[m], if m < n then 8 else if m > n then 0 else k);
      BlockIsPower(k);
    }
    assert ip[..n] == c.ip[..n] <==> forall m :: 0 <= m < n ==> ip[m] == c.ip[m];
  }

  lemma AlignedInBytes(c: Cidr)
    requires Sized(c)
    ensures Aligned(c) <==> ClearByte(c)
  {
    hide ByteBit, Pow2, Block;
    var n, k := c.mask / 8, c.mask % 8;
    if k != 0 {
      ClearIsMultiple(c.ip[n], k);
      BlockIsPower(k);
      if Aligned(c) {
        forall j: nat | k <= j < 8 ensures ByteBit(c.ip[n], j) == 0 {
          assert (8 * n + j) / 8 == n && (8 * n + j) % 8 == j;
          assert Bit(c.ip, 8 * n + j) == 0;
        }
      }
    }
  }

  // ---- the expansion ----

  /** Bytes of one group of the trie. */
  function GroupBytes(ip: Bytes): nat {
    if IsV4(ip) then 1 else 2
  }

  function Wrap(x: int): byte {
    x % 256
  }

  /** How far a byte lies above another, going around. */
  function Above(x: int, y: int): byte {
    Wrap(y - x)
  }

  /** How many addresses share a byte whose first `k` bits are fixed: as many as the copies the loop makes. */
  function Block(k: nat): (b: nat)
    ensures b > 0
  {
    ShiftRight(0xFF, k) + 1
  }

  lemma BlockIsPower(k: nat)
    requires k <= 8
    ensures Block(k) == Pow2(8 - k)
  {
    assert Pow2(8) == 256 && Pow2(7) == 128 && Pow2(6) == 64 && Pow2(5) == 32 && Pow2(4) == 16;
    ShiftIsQuotient(0xFF, k);
  }

  /** The networks of whole groups that replace a network, and their mask. */
  method SubIpCidr(c: Cidr) returns (list: seq<Bytes>, mask: nat)
    requires Sized(c)
    ensures list == Subs(c) && mask == SubMask(c)
  {
    var groupSize := 8 * GroupBytes(c.ip);
    if c.mask % groupSize == 0 {
      return [c.ip], c.mask;
    }
    var lastByteMaskIndex := c.mask / 8;
    list := Copies(c.ip, lastByteMaskIndex, ShiftRight(0xFF, c.mask % 8));
    mask := (lastByteMaskIndex + 1) * 8;
    if !IsV4(c.ip) {
      mask := (lastByteMaskIndex / 2 + 1) * 16;
    }
  }

  /** The loop over the copies, each with byte `m` raised by its number. */
  method Copies(ip: Bytes, m: nat, last: nat) returns (list: seq<Bytes>)
    requires m < |ip|
    ensures list == seq(last + 1, i requires 0 <= i < last + 1 => Edited(ip, m, i))
  {
    hide Wrap;
    list := [];
    for i := 0 to last + 1
      invariant |list| == i
      invariant forall k :: 0 <= k < i ==> list[k] == Edited(ip, m, k)
    {
      var sub := ip;
      sub := sub[m := Wrap(sub[m] + i)];
      list := list + [sub];
    }
  }

  /** One byte raised by `i`, with wrap-around. */
  function Edited(a: Bytes, m: nat, i: nat): Bytes
    requires m < |a|
  {
    a[m := Wrap(a[m] + i)]
  }

  function SubAt(c: Cidr, i: nat): Bytes
    requires c.mask / 8 < |c.ip|
  {
    Edited(c.ip, c.mask / 8, i)
  }

  function Subs(c: Cidr): seq<Bytes>
    requires Sized(c)
  {
    if c.mask % (8 * GroupBytes(c.ip)) == 0 then [c.ip]
    else seq(Block(c.mask % 8), i requires 0 <= i < Block(c.mask % 8) => SubAt(c, i))
  }

  function SubMask(c: Cidr): nat
    requires Sized(c)
  {
    if c.mask % (8 * GroupBytes(c.ip)) == 0 then c.mask
    else if IsV4(c.ip) then (c.mask / 8 + 1) * 8
    else (c.mask / 16 + 1) * 16
  }

  /** Bytes of a sub-network that the trie compares; always at least one group. */
  function SubBytes(c: Cidr): (n: nat)
    requires Sized(c)
    ensures 0 < n <= |c.ip| && n % GroupBytes(c.ip) == 0
  {
    if SubMask(c) == 0 then GroupBytes(c.ip) else SubMask(c) / 8
  }

  /** The trie's answer for one network. */
  predicate Covers(c: Cidr, ip: Bytes)
    requires Sized(c)
  {
    |ip| == |c.ip| && exists i :: 0 <= i < |Subs(c)| && Subs(c)[i][..SubBytes(c)] == ip[..SubBytes(c)]
  }

  // ---- the answer is right exactly where the expansion fills whole groups ----

  /** Lengths for which the expansion is complete: not zero, and for IPv6 not one to seven bits
      into a group. */
  predicate GoodLength(c: Cidr) {
    c.mask > 0 && (IsV4(c.ip) || c.mask % 16 == 0 || c.mask % 16 >= 8)
  }

  /** The address agrees in whole bytes, and its last byte lies less than a block above the network's. */
  predicate Near(c: Cidr, ip: Bytes)
    requires Sized(c) && |ip| == |c.ip|
  {
    && ip[..c.mask / 8] == c.ip[..c.mask / 8]
    && (c.mask % 8 != 0 ==> Above(c.ip[c.mask / 8], ip[c.mask / 8]) < Block(c.mask % 8))
  }

  /** What a covered address must have besides. */
  predicate Extra(c: Cidr, ip: Bytes)
    requires Sized(c) && |ip| == |c.ip|
  {
    if c.mask == 0 then forall i :: 0 <= i < GroupBytes(c.ip) ==> ip[i] == c.ip[i]
    else if GoodLength(c) then true
    else ip[c.mask / 8 + 1] == c.ip[c.mask / 8 + 1]
  }

  lemma BlockValues(k: nat)
    requires 0 < k < 8
    ensures Block(k) == if k == 1 then 128 else if k == 2 then 64 else if k == 3 then 32 else if k == 4 then 16
                        else if k == 5 then 8 else if k == 6 then 4 else 2
  {
    assert Pow2(7) == 128 && Pow2(6) == 64 && Pow2(5) == 32 && Pow2(4) == 16 && Pow2(3) == 8;
    BlockIsPower(k);
  }

  lemma BlockRange(k: nat, x: byte, y: byte)
    requires 0 < k < 8 && x % Block(k) == 0
    ensures y / Block(k) == x / Block(k) <==> Above(x, y) < Block(k)
  {
    hide Block;
    BlockValues(k);
    if k == 1 {} else if k == 2 {} else if k == 3 {} else if k == 4 {} else if k == 5 {} else if k == 6 {} else {}
  }

  /** The start of the block of `x`, when `x` is not that start itself. */
  lemma BlockStart(k: nat, x: byte) returns (z: byte)
    requires 0 < k < 8 && x % Block(k) != 0
    ensures z / Block(k) == x / Block(k) && Above(x, z) >= Block(k)
  {
    hide Block;
    BlockValues(k);
    var d := Block(k);
    z := x - x % d;
    Quotient(x, d);
    Between(z, d, x / d);
  }

  /** A network whose host bits are clear is near exactly its addresses. */
  lemma NearIsContains(c: Cidr, ip: Bytes)
    requires Sized(c) && Aligned(c) && |ip| == |c.ip|
    ensures Near(c, ip) <==> Contains(c, ip)
  {
    hide Contains, Aligned, Block;
    ContainsInBytes(c, ip);
    AlignedInBytes(c);
    if c.mask % 8 != 0 { BlockRange(c.mask % 8, c.ip[c.mask / 8], ip[c.mask / 8]); }
  }

  /** For every network, also with host bits set: which addresses the expansion covers. */
  lemma CoversExactly(c: Cidr, ip: Bytes)
    requires Sized(c) && |ip| == |c.ip|
    ensures Covers(c, ip) <==> Near(c, ip) && Extra(c, ip)
  {
    if c.mask % (8 * GroupBytes(c.ip)) == 0 {
      WholeGroups(c, ip);
    } else {
      Expanded(c, ip);
    }
  }

  lemma WholeGroups(c: Cidr, ip: Bytes)
    requires Sized(c) && |ip| == |c.ip| && c.mask % (8 * GroupBytes(c.ip)) == 0
    ensures Covers(c, ip) <==> Near(c, ip) && Extra(c, ip)
  {
    assert Subs(c)[0] == c.ip;
    if c.mask == 0 {
      var n := GroupBytes(c.ip);
      assert forall i :: 0 <= i < n ==> c.ip[..n][i] == c.ip[i] && ip[..n][i] == ip[i];
      assert ip[..n] == c.ip[..n] <==> forall i :: 0 <= i < n ==> ip[i] == c.ip[i];
    }
  }

  lemma Expanded(c: Cidr, ip: Bytes)
    requires Sized(c) && |ip| == |c.ip| && c.mask % (8 * GroupBytes(c.ip)) != 0
    ensures Covers(c, ip) <==> Near(c, ip) && Extra(c, ip)
  {
    var m, k, n := c.mask / 8, c.mask % 8, SubBytes(c);
    PlaceOfBytes(c);
    InBlock(c.ip, ip, m, n, Block(k));
    assert forall i :: 0 <= i < Block(k) ==> Subs(c)[i] == Edited(c.ip, m, i);
    if i :| 0 <= i < |Subs(c)| && Subs(c)[i][..n] == ip[..n] {
      assert Edited(c.ip, m, i)[..n] == ip[..n];
    }
    if i :| 0 <= i < Block(k) && Edited(c.ip, m, i)[..n] == ip[..n] {
      assert Subs(c)[i][..n] == ip[..n];
    }
  }

  /** The edited byte is the last or the last but one that is compared. */
  lemma PlaceOfBytes(c: Cidr)
    requires Sized(c) && c.mask % (8 * GroupBytes(c.ip)) != 0
    ensures c.mask / 8 < SubBytes(c) <= c.mask / 8 + 2
    ensures SubBytes(c) == c.mask / 8 + 2 <==> !GoodLength(c)
    ensures |Subs(c)| == Block(c.mask % 8) <= 256
  {
    if c.mask % 8 != 0 { BlockValues(c.mask % 8); }
  }

  /** Agreeing with one of the edited copies is lying in the block. */
  lemma InBlock(a: Bytes, ip: Bytes, m: nat, n: nat, size: nat)
    requires m < n <= m + 2 && n <= |a| == |ip| && size <= 256
    ensures (exists i :: 0 <= i < size && Edited(a, m, i)[..n] == ip[..n]) <==>
            ip[..m] == a[..m] && Above(a[m], ip[m]) < size && (n == m + 2 ==> ip[m + 1] == a[m + 1])
  {
    if i :| 0 <= i < size && Edited(a, m, i)[..n] == ip[..n] {
      EditedAgrees(a, ip, m, n, i);
    }
    if ip[..m] == a[..m] && Above(a[m], ip[m]) < size && (n == m + 2 ==> ip[m + 1] == a[m + 1]) {
      EditedAgrees(a, ip, m, n, Above(a[m], ip[m]));
    }
  }

  lemma EditedAgrees(a: Bytes, ip: Bytes, m: nat, n: nat, i: nat)
    requires m < n <= m + 2 && n <= |a| == |ip| && i < 256
    ensures Edited(a, m, i)[..n] == ip[..n] <==>
            ip[..m] == a[..m] && i == Above(a[m], ip[m]) && (n == m + 2 ==> ip[m + 1] == a[m + 1])
  {
    var s := Edited(a, m, i);
    assert s[m] == ip[m] <==> i == Above(a[m], ip[m]);
    assert s[..n] == a[..m] + [s[m]] + (if n == m + 2 then [a[m + 1]] else []);
    assert ip[..n] == ip[..m] + [ip[m]] + (if n == m + 2 then [ip[m + 1]] else []);
    var x, y := s[..n], ip[..n];
    assert x[..m] == a[..m] && y[..m] == ip[..m] && x[m] == s[m] && y[m] == ip[m];
    assert n == m + 2 ==> x[m + 1] == a[m + 1] && y[m + 1] == ip[m + 1];
  }

  /** The answer is right for every address exactly for a complete length and clear host bits in the byte
      in which the mask ends; otherwise some address of the network is missed. */
  lemma RightExactly(c: Cidr)
    requires Sized(c)
    ensures (forall ip :: |ip| == |c.ip| ==> (Covers(c, ip) <==> Contains(c, ip))) <==> GoodLength(c) && Aligned(c)
  {
    if GoodLength(c) && Aligned(c) {
      forall ip | |ip| == |c.ip| ensures Covers(c, ip) <==> Contains(c, ip) {
        CoversExactly(c, ip);
        NearIsContains(c, ip);
      }
    } else {
      var missed := Missed(c);
    }
  }

  lemma Missed(c: Cidr) returns (ip: Bytes)
    requires Sized(c) && !(GoodLength(c) && Aligned(c))
    ensures |ip| == |c.ip| && Contains(c, ip) && !Covers(c, ip)
  {
    hide Contains, Aligned, Block, Covers;
    AlignedInBytes(c);
    var m, k := c.mask / 8, c.mask % 8;
    if GoodLength(c) {
      var start := BlockStart(k, c.ip[m]);
      ip := c.ip[m := start];
    } else {
      var at := if c.mask == 0 then 0 else m + 1;
      ip := c.ip[at := Wrap(c.ip[at] as int + 1)];
    }
    assert ip[..m] == c.ip[..m];
    ContainsInBytes(c, ip);
    CoversExactly(c, ip);
  }
}
