/** Disk blocks as bytes, and the words of an indirect block. */
module FsData {
  import opened Machine

  const BSIZE: nat := 1024
  const NINDIRECT: nat := 256

  type Block = b: seq<byte> | |b| == BSIZE witness seq(BSIZE, _ => 0)

  const ZEROS: Block := seq(BSIZE, _ => 0)

  /** The j-th little-endian 32-bit word of a block. */
  function GetWord(b: Block, j: nat): (w: nat)
    requires j < NINDIRECT
    ensures w < 0x1_0000_0000
  {
    var b0: int, b1: int, b2: int, b3: int := b[4 * j], b[4 * j + 1], b[4 * j + 2], b[4 * j + 3];
    b0 + b1 * 0x100 + b2 * 0x1_0000 + b3 * 0x100_0000
  }

  function PutWord(b: Block, j: nat, w: nat): Block
    requires j < NINDIRECT && w < 0x1_0000_0000
  {
    b[4 * j := w % 0x100][4 * j + 1 := w / 0x100 % 0x100][4 * j + 2 := w / 0x1_0000 % 0x100][4 * j + 3 := w / 0x100_0000]
  }

  lemma WordBytes(w: nat)
    requires w < 0x1_0000_0000
    ensures w == w % 0x100 + w / 0x100 % 0x100 * 0x100 + w / 0x1_0000 % 0x100 * 0x1_0000 + w / 0x100_0000 * 0x100_0000
  {
    var h := w / 0x100;
    var g := h / 0x100;
    assert w == h * 0x100 + w % 0x100 && h == g * 0x100 + h % 0x100 && g == g / 0x100 * 0x100 + g % 0x100;
    assert w / 0x1_0000 == g && w / 0x100_0000 == g / 0x100;
  }

  /** A word that was put is got back, and the other words stay. */
  lemma PutGet(b: Block, j: nat, w: nat, k: nat)
    requires j < NINDIRECT && k < NINDIRECT && w < 0x1_0000_0000
    ensures GetWord(PutWord(b, j, w), k) == if k == j then w else GetWord(b, k)
  {
    WordBytes(w);
  }

  lemma ZeroWord(j: nat)
    requires j < NINDIRECT
    ensures GetWord(ZEROS, j) == 0
  {}
}
