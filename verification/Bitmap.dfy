/** Bitmaps in 64-bit words, each word given by its bits from the lowest on, with the counting
    and selecting operations of the rank/select library stated by their contracts. */
module Bitmap {
  type Word = w: seq<bool> | |w| == 64 witness seq(64, _ => false)

  const ZERO_WORD: Word := seq(64, _ => false)

  predicate GetBit(bm: seq<Word>, i: nat)
    requires i / 64 < |bm|
  {
    bm[i / 64][i % 64]
  }

  /** Bit `i`, reading zero beyond the last word. */
  predicate Bit(bm: seq<Word>, i: nat) {
    i / 64 < |bm| && GetBit(bm, i)
  }

  /** Extends the bitmap up to bit `i` and ors `v` into it. */
  method SetBit(bm: seq<Word>, i: nat, v: bool) returns (r: seq<Word>)
    ensures |r| == if i / 64 < |bm| then |bm| else i / 64 + 1
    ensures forall j: nat :: Bit(r, j) == if j == i then Bit(bm, i) || v else Bit(bm, j)
  {
    r := bm;
    while i / 64 >= |r|
      invariant |bm| <= |r|
      invariant |r| <= i / 64 + 1 || r == bm
      invariant forall k :: 0 <= k < |bm| ==> r[k] == bm[k]
      invariant forall k :: |bm| <= k < |r| ==> r[k] == ZERO_WORD
    {
      r := r + [ZERO_WORD];
    }
    var w := r[i / 64];
    r := r[i / 64 := w[i % 64 := w[i % 64] || v]];
  }

  /** Ones before position `i`. */
  function Ones(bm: seq<Word>, i: nat): (n: nat)
    ensures n <= i
  {
    if i == 0 then 0 else Ones(bm, i - 1) + if Bit(bm, i - 1) then 1 else 0
  }

  /** Zeros before position `i`, which the rank index must cover. */
  function CountZeros(bm: seq<Word>, i: nat): nat
    requires i / 64 < |bm|
  {
    i - Ones(bm, i)
  }

  lemma OnesMonotone(bm: seq<Word>, i: nat, j: nat)
    requires i <= j
    ensures Ones(bm, i) <= Ones(bm, j)
  {
    if i < j { OnesMonotone(bm, i, j - 1); }
  }

  /** The position of the one that has `i` ones before it. */
  function SelectIthOne(bm: seq<Word>, i: nat): (p: nat)
    requires exists p: nat :: Bit(bm, p) && Ones(bm, p) == i
    ensures Bit(bm, p) && Ones(bm, p) == i
  {
    SelectFrom(bm, i, 0)
  }

  function SelectFrom(bm: seq<Word>, i: nat, at: nat): (p: nat)
    requires exists p: nat :: at <= p && Bit(bm, p) && Ones(bm, p) == i
    ensures Bit(bm, p) && Ones(bm, p) == i
    decreases 64 * |bm| - at
  {
    if Bit(bm, at) && Ones(bm, at) == i then at else SelectFrom(bm, i, at + 1)
  }

  /** Selection is the inverse of counting. */
  lemma SelectUnique(bm: seq<Word>, p: nat)
    requires Bit(bm, p)
    ensures SelectIthOne(bm, Ones(bm, p)) == p
  {
    var q := SelectIthOne(bm, Ones(bm, p));
    if q < p { OnesMonotone(bm, q + 1, p); }
    if p < q { OnesMonotone(bm, p + 1, q); }
  }
}
