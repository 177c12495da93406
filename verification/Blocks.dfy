/** Disk blocks as bytes, and the little-endian 32-bit words laid out in them. */
module Blocks {
  import opened DiskWrites

  const BSIZE := 512
  const WORDS := 128   // BSIZE / sizeof(uint)

  type Byte = x: int | 0 <= x < 256
  type Block = b: seq<Byte> | |b| == BSIZE witness seq(BSIZE, i => 0)

  /** memset(data, 0, BSIZE) */
  function ZeroBlock(): Block { seq(BSIZE, i => 0) }

  /** The i-th uint stored in a block. */
  function GetWord(b: Block, i: nat): (w: Word)
    requires i < WORDS
  {
    b[4*i] as int + 0x100 * (b[4*i+1] as int) + 0x1_0000 * (b[4*i+2] as int) + 0x100_0000 * (b[4*i+3] as int)
  }

  /** Store a uint at word i. */
  function SetWord(b: Block, i: nat, w: Word): (r: Block)
    requires i < WORDS
  {
    b[4*i := w % 0x100]
     [4*i+1 := w / 0x100 % 0x100]
     [4*i+2 := w / 0x1_0000 % 0x100]
     [4*i+3 := w / 0x100_0000]
  }

  /** A stored word reads back, and leaves every other word alone. */
  lemma {:induction false} SetGetWord(b: Block, i: nat, w: Word, j: nat)
    requires i < WORDS && j < WORDS
    ensures GetWord(SetWord(b, i, w), j) == if i == j then w else GetWord(b, j)
  {
    if i == j {
      SplitWord(w);
    }
  }

  lemma {:induction false} SplitWord(w: Word)
    ensures w == w % 0x100 + 0x100 * (w / 0x100 % 0x100)
                 + 0x1_0000 * (w / 0x1_0000 % 0x100) + 0x100_0000 * (w / 0x100_0000)
  {
    assert w / 0x1_0000 == w / 0x100 / 0x100;
    assert w / 0x100_0000 == w / 0x1_0000 / 0x100;
  }

  /** Every word of the zero block is zero. */
  lemma {:induction false} ZeroWords(i: nat)
    requires i < WORDS
    ensures GetWord(ZeroBlock(), i) == 0
  {
  }
}
