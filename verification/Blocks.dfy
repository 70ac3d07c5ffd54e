/** Disk blocks: 512 bytes, read as bytes or as 128 little-endian 32-bit words. */
module Blocks {
  const BSIZE: nat := 512
  const WORDS: nat := 128
  const UINT: nat := 0x1_0000_0000

  type Byte = x: int | 0 <= x < 256

  type Block = s: seq<Byte> | |s| == BSIZE witness seq(BSIZE, _ => 0)

  /** `((uint*)data)[i]` on a little-endian machine. */
  function Word(b: Block, i: nat): (w: nat)
    requires i < WORDS
    ensures w < UINT
  {
    var b0: int, b1: int, b2: int, b3: int :=
      b[4 * i], b[4 * i + 1], b[4 * i + 2], b[4 * i + 3];
    b0 + 0x100 * b1 + 0x1_0000 * b2 + 0x100_0000 * b3
  }

  lemma LittleEndian(w: nat)
    requires w < UINT
    ensures w == w % 0x100 + 0x100 * (w / 0x100 % 0x100) + 0x1_0000 * (w / 0x1_0000 % 0x100) + 0x100_0000 * (w / 0x100_0000)
    ensures w / 0x100_0000 < 0x100
  {
    assert w / 0x100 / 0x100 == w / 0x1_0000;
    assert w / 0x1_0000 / 0x100 == w / 0x100_0000;
  }

  /** `((uint*)data)[i] = w`. */
  function PutWord(b: Block, i: nat, w: nat): (r: Block)
    requires i < WORDS && w < UINT
    ensures Word(r, i) == w
    ensures forall j: nat | j < WORDS && j != i :: Word(r, j) == Word(b, j)
  {
    LittleEndian(w);
    var r: Block := b[..4 * i] + [w % 0x100, w / 0x100 % 0x100, w / 0x1_0000 % 0x100, w / 0x100_0000] + b[4 * i + 4..];
    r
  }

  /** `memset(data, 0, BSIZE)`. */
  function Zeroed(): (z: Block)
    ensures forall i | 0 <= i < BSIZE :: z[i] == 0
    ensures forall i: nat | i < WORDS :: Word(z, i) == 0
  {
    seq(BSIZE, _ => 0)
  }
}
