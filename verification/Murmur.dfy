/** The streaming murmur3 digest: full blocks are mixed as they come, pending bytes wait in a buffer
    which the next write appends to in place. */
module Murmur {
  import opened MurmurSpec

  /** A window on an array, as a Go slice is. */
  datatype Slice = Slice(mem: array<Byte>, lo: nat, hi: nat) {
    ghost predicate Fits() {
      lo <= hi <= mem.Length
    }

    ghost function Bytes(): seq<Byte>
      reads mem
      requires Fits()
    {
      mem[lo..hi]
    }
  }

  /** Mixes the full blocks of `p` into `h1` and returns what is behind them. */
  method MixBlocks(h1: bv32, p: Slice) returns (h: bv32, tail: Slice)
    requires p.Fits()
    ensures h == Blocks(h1, p.Bytes())
    ensures tail.Fits() && tail.mem == p.mem && tail.Bytes() == Rest(p.Bytes())
    ensures p.lo <= tail.lo && tail.hi == p.hi
  {
    hide Mixed, Word, Blocks, Rest;
    var nblocks := (p.hi - p.lo) / 4;
    ghost var bytes := p.Bytes();
    h := h1;
    assert bytes[4 * 0..] == bytes;
    LastBlock(h, bytes, nblocks);
    for i := 0 to nblocks
      invariant Blocks(h, bytes[4 * i..]) == Blocks(h1, bytes)
    {
      var at := p.lo + 4 * i;
      NextBlock(h, bytes, i);
      h := Mixed(h, Word(p.mem[at], p.mem[at + 1], p.mem[at + 2], p.mem[at + 3]));
    }
    LastBlock(h, bytes, nblocks);
    tail := Slice(p.mem, p.lo + 4 * nblocks, p.hi);
  }

  class Digest {
    var h1: bv32
    var clen: nat
    var tailLen: nat // the tail is the first tailLen bytes of buf
    const seed: bv32
    const buf: array<Byte>
    ghost var written: seq<Byte>

    ghost predicate Valid()
      reads this, buf
    {
      && buf.Length == 16
      && tailLen < 4
      && clen == |written|
      && h1 == Blocks(seed, written)
      && buf[..tailLen] == Rest(written)
    }

    constructor (seed: bv32)
      ensures Valid() && fresh(buf) && written == [] && this.seed == seed
    {
      this.seed := seed;
      buf := new Byte[16](_ => 0);
      h1, clen, tailLen, written := seed, 0, 0, [];
    }

    method Bmix(p: Slice) returns (tail: Slice)
      requires p.Fits()
      modifies this`h1
      ensures h1 == Blocks(old(h1), p.Bytes())
      ensures tail.Fits() && tail.mem == p.mem && tail.Bytes() == Rest(p.Bytes())
      ensures p.lo <= tail.lo && tail.hi == p.hi
    {
      hide Blocks, Rest;
      h1, tail := MixBlocks(h1, p);
    }

    /** Appends `p` to the tail, in place: the buffer is long enough. */
    method AppendToTail(p: Slice) returns (r: Slice)
      requires buf.Length == 16 && p.Fits() && p.mem != buf && tailLen + (p.hi - p.lo) <= 16
      modifies buf
      ensures r.Fits() && r.mem == buf && r.lo == 0 && r.Bytes() == old(buf[..tailLen]) + old(p.Bytes())
    {
      var n := p.hi - p.lo;
      for i := 0 to n
        invariant buf[..tailLen + i] == old(buf[..tailLen]) + old(p.Bytes())[..i]
      {
        buf[tailLen + i] := p.mem[p.lo + i];
      }
      r := Slice(buf, 0, tailLen + n);
    }

    /** Copies the pending bytes to the front of the buffer, which may hold them already. */
    method KeepTail(tail: Slice)
      requires buf.Length == 16 && tail.Fits() && tail.hi - tail.lo < 4
      modifies buf, this`tailLen
      ensures tailLen == tail.hi - tail.lo && buf[..tailLen] == old(tail.Bytes())
    {
      var n := tail.hi - tail.lo;
      for i := 0 to n
        invariant buf[..i] == old(tail.Bytes())[..i]
        invariant forall k :: tail.lo + i <= k < tail.hi ==> tail.mem[k] == old(tail.mem[k])
      {
        buf[i] := tail.mem[tail.lo + i];
      }
      tailLen := n;
    }

    /** What a write leaves to mix: the pending bytes followed by the data, short of one full block
        that is mixed here when the data reach beyond it. */
    method TakePending(data: array<Byte>) returns (p: Slice)
      requires buf.Length == 16 && tailLen < 4 && data != buf
      modifies this`h1, buf
      ensures p.Fits()
      ensures Blocks(h1, p.Bytes()) == Blocks(old(h1), old(buf[..tailLen]) + data[..])
      ensures Rest(p.Bytes()) == Rest(old(buf[..tailLen]) + data[..])
    {
      hide Mixed, Word, Blocks, Rest;
      ghost var pending := buf[..tailLen];
      p := Slice(data, 0, data.Length);
      if tailLen > 0 {
        var nfree := 4 - tailLen;
        if nfree < data.Length {
          var block := AppendToTail(Slice(data, 0, nfree));
          p := Slice(data, nfree, data.Length);
          ghost var full := block.Bytes();
          var _ := Bmix(block);
          assert full + p.Bytes() == pending + data[..];
          BlocksAppend(old(h1), full, p.Bytes());
          RestAppend(full, p.Bytes());
        } else {
          p := AppendToTail(p);
          assert p.Bytes() == pending + data[..];
        }
      } else {
        assert p.Bytes() == pending + data[..];
      }
    }

    method Write(data: array<Byte>)
      requires Valid() && data != buf
      modifies this, buf
      ensures Valid() && written == old(written) + data[..]
    {
      hide Mixed, Word, Blocks, Rest;
      clen := clen + data.Length;
      Continue(seed, written, data[..]);
      written := written + data[..];
      var p := TakePending(data);
      var tail := Bmix(p);
      KeepTail(tail);
    }

    method Sum32() returns (h: bv32)
      requires Valid()
      ensures h == Sum(written, seed)
    {
      hide Scrambled, Xor, Finished, Low32, Blocks, Rest, WithRest;
      h := EndOf(h1, Slice(buf, 0, tailLen));
      h := Finished(Xor(h, Low32(clen)));
    }
  }

  /** Mixes in the bytes behind the last full block, case by case. */
  method EndOf(h1: bv32, tail: Slice) returns (h: bv32)
    requires tail.Fits() && tail.hi - tail.lo < 4
    ensures h == WithRest(h1, tail.Bytes())
  {
    hide Scrambled;
    var n, k1: bv32 := tail.hi - tail.lo, 0;
    h := h1;
    if n == 3 {
      k1 := k1 ^ ((tail.mem[tail.lo + 2] as bv32) << 16);
    }
    if n >= 2 {
      k1 := k1 ^ ((tail.mem[tail.lo + 1] as bv32) << 8);
    }
    if n >= 1 {
      k1 := k1 ^ (tail.mem[tail.lo] as bv32);
      h := Xor(h, Scrambled(k1));
    }
  }

  /** The one-shot hash. */
  method Sum32WithSeed(data: array<Byte>, seed: bv32) returns (h: bv32)
    ensures h == Sum(data[..], seed)
  {
    hide Blocks, Rest, Xor, Finished, Low32, WithRest;
    var h1, tail := MixBlocks(seed, Slice(data, 0, data.Length));
    assert data[0..data.Length] == data[..];
    h := EndOf(h1, tail);
    h := Finished(Xor(h, Low32(data.Length)));
  }

  ghost function Concat(chunks: seq<array<Byte>>): seq<Byte>
    reads chunks
  {
    if chunks == [] then [] else Concat(chunks[..|chunks| - 1]) + chunks[|chunks| - 1][..]
  }

  /** Whatever the cut into writes, the streamed hash is the one-shot hash of the whole. */
  method Stream(chunks: seq<array<Byte>>, whole: array<Byte>, seed: bv32) returns (streamed: bv32, oneShot: bv32)
    requires Concat(chunks) == whole[..]
    ensures streamed == oneShot == Sum(whole[..], seed)
  {
    hide Blocks, Rest, Sum;
    var d := new Digest(seed);
    for i := 0 to |chunks|
      invariant d.Valid() && d.seed == seed && fresh(d) && fresh(d.buf)
      invariant d.written == Concat(chunks[..i])
    {
      d.Write(chunks[i]);
      assert chunks[..i + 1][..i] == chunks[..i];
    }
    assert chunks[..|chunks|] == chunks;
    streamed := d.Sum32();
    oneShot := Sum32WithSeed(whole, seed);
  }
}
