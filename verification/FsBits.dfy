/** The free map's bits, and runs of integers stored in a block. */
module FsBits {
  import opened Params
  import opened DiskBlocks

  const BPB: nat := 4096               // bits per bitmap block

  // (x & (1 << i)) != 0
  predicate TestBit(x: nat, i: nat) { if i == 0 then x % 2 == 1 else TestBit(x / 2, i - 1) }

  // x | (1 << i), or x & ~(1 << i)
  function WithBit(x: nat, i: nat, v: bool): nat
  {
    if i == 0 then x / 2 * 2 + (if v then 1 else 0) else 2 * WithBit(x / 2, i - 1, v) + x % 2
  }

  function Pow2(n: nat): (p: nat)
    ensures p > 0
  {
    if n == 0 then 1 else 2 * Pow2(n - 1)
  }

  lemma {:induction false} WithBitFits(x: nat, i: nat, v: bool, n: nat)
    requires i < n && x < Pow2(n)
    ensures WithBit(x, i, v) < Pow2(n)
  {
    if i > 0 { WithBitFits(x / 2, i - 1, v, n - 1); }
  }

  lemma {:induction false} TestWithBit(x: nat, i: nat, v: bool, j: nat)
    ensures TestBit(WithBit(x, i, v), j) == if i == j then v else TestBit(x, j)
  {
    if i > 0 && j > 0 {
      TestWithBit(x / 2, i - 1, v, j - 1);
      assert WithBit(x, i, v) / 2 == WithBit(x / 2, i - 1, v);
    }
  }

  function ByteWithBit(x: Byte, i: nat, v: bool): Byte
    requires i < 8
  {
    WithBitFits(x, i, v, 8);
    WithBit(x, i, v)
  }

  /** Bit bi of a bitmap block. */
  predicate Bit(b: Block, bi: nat)
    requires bi < BPB
  {
    TestBit(b[bi / 8], bi % 8)
  }

  function SetBit(b: Block, bi: nat, v: bool): Block
    requires bi < BPB
  {
    b[bi / 8 := ByteWithBit(b[bi / 8], bi % 8, v)]
  }

  lemma {:induction false} BitSetBit(b: Block, bi: nat, v: bool, bj: nat)
    requires bi < BPB && bj < BPB
    ensures Bit(SetBit(b, bi, v), bj) == if bi == bj then v else Bit(b, bj)
  {
    TestWithBit(b[bi / 8], bi % 8, v, bj % 8);
  }

  // ----- integers in a row -----

  /** The block with ws stored from word lo on. */
  function PutWords(b: Block, lo: nat, ws: seq<nat>): Block
    requires lo + |ws| <= WORDS && forall i :: 0 <= i < |ws| ==> ws[i] < U32
    decreases |ws|
  {
    if ws == [] then b else PutWords(Set32(b, lo, ws[0]), lo + 1, ws[1..])
  }

  lemma {:induction false} GetPutWords(b: Block, lo: nat, ws: seq<nat>, j: nat)
    requires lo + |ws| <= WORDS && (forall i :: 0 <= i < |ws| ==> ws[i] < U32) && j < WORDS
    ensures Get32(PutWords(b, lo, ws), j) == if lo <= j < lo + |ws| then ws[j - lo] else Get32(b, j)
    decreases |ws|
  {
    if ws != [] {
      GetPutWords(Set32(b, lo, ws[0]), lo + 1, ws[1..], j);
      Get32Set32(b, lo, ws[0], j);
    }
  }

  function GetWords(b: Block, lo: nat, n: nat): (ws: seq<nat>)
    requires lo + n <= WORDS
    ensures |ws| == n && forall i :: 0 <= i < n ==> ws[i] == Get32(b, lo + i)
  {
    if n == 0 then [] else GetWords(b, lo, n - 1) + [Get32(b, lo + n - 1)]
  }
}
