/** The free bitmap of fs.c: one bit per block, packed in bitmap blocks. */
module Bitmap {
  import opened Blocks

  const BPB := 4096   // BSIZE * 8

  /** 1 << w */
  function Pow2(w: nat): nat
    requires w <= 8
  {
    if w == 0 then 1 else if w == 1 then 2 else if w == 2 then 4 else if w == 3 then 8 else if w == 4 then 16
    else if w == 5 then 32 else if w == 6 then 64 else if w == 7 then 128 else 256
  }

  /** Bit k of x: (x & 1 << k) != 0. */
  predicate TestBit(x: nat, k: nat) {
    if k == 0 then x % 2 == 1 else TestBit(x / 2, k-1)
  }

  /** x with bit k set to v, among w bits: x | 1 << k or x & ~(1 << k). */
  function PutBit(x: nat, k: nat, v: bool, w: nat): (r: nat)
    requires k < w <= 8 && x < Pow2(w)
    ensures r < Pow2(w)
  {
    if k == 0 then x / 2 * 2 + if v then 1 else 0
    else 2 * PutBit(x / 2, k-1, v, w-1) + x % 2
  }

  lemma {:induction false} PutBitOnly(x: nat, k: nat, v: bool, w: nat, j: nat)
    requires k < w <= 8 && x < Pow2(w)
    ensures TestBit(PutBit(x, k, v, w), j) <==> if j == k then v else TestBit(x, j)
  {
    var r := PutBit(x, k, v, w);
    if k == 0 {
      assert r / 2 == x / 2;
    } else {
      assert r / 2 == PutBit(x / 2, k-1, v, w-1) && r % 2 == x % 2;
      if j > 0 { PutBitOnly(x / 2, k-1, v, w-1, j-1); }
    }
  }

  /** The same on a byte. */
  function PutByteBit(x: Byte, k: nat, v: bool): (r: Byte)
    requires k < 8
  {
    PutBit(x, k, v, 8)
  }

  /** bp->data[bi/8] & m */
  predicate Bit(b: Block, bi: nat)
    requires bi < BPB
  { TestBit(b[bi/8], bi % 8) }

  /** Bit bi of a block is the bit of value 1 << bi % 8 of byte bi / 8. */
  lemma {:induction false} BitIs(b: Block, bi: nat)
    requires bi < BPB
    ensures Bit(b, bi) <==> b[bi/8] / Pow2(bi % 8) % 2 == 1
  {
    TestBitIs(b[bi/8], bi % 8);
  }

  lemma {:induction false} TestBitIs(x: nat, k: nat)
    requires k < 8
    ensures TestBit(x, k) <==> x / Pow2(k) % 2 == 1
  {
    if k > 0 {
      TestBitIs(x / 2, k - 1);
      assert x / 2 / Pow2(k - 1) == x / Pow2(k);
    }
  }

  function SetBit(b: Block, bi: nat): (r: Block)
    requires bi < BPB
  { b[bi/8 := PutByteBit(b[bi/8], bi % 8, true)] }

  function ClearBit(b: Block, bi: nat): (r: Block)
    requires bi < BPB
  { b[bi/8 := PutByteBit(b[bi/8], bi % 8, false)] }

  /** Setting or clearing a bit changes that bit only. */
  lemma {:induction false} SetBitOnly(b: Block, bi: nat, j: nat)
    requires bi < BPB && j < BPB
    ensures Bit(SetBit(b, bi), j) <==> j == bi || Bit(b, j)
    ensures Bit(ClearBit(b, bi), j) <==> j != bi && Bit(b, j)
  {
    if j / 8 == bi / 8 {
      PutBitOnly(b[bi/8], bi % 8, true, 8, j % 8);
      PutBitOnly(b[bi/8], bi % 8, false, 8, j % 8);
      assert j % 8 == bi % 8 <==> j == bi;
    }
  }
}
