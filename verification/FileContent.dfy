/** The bytes of a file, as the block trees and the disk give them. */
module FileContent {
  import opened Blocks
  import opened Bitmap
  import opened FsTree

  const LIMIT: nat := MAXFILE * BSIZE

  /** File block n of inode j is mapped to a block of the disk. */
  predicate Mapped(d: seq<Block>, ns: seq<Inode>, j: nat, n: nat) {
    Inodes(ns) && j < |ns| && n < MAXFILE && 0 < BlockOf(d, ns, j, n) < |d|
  }

  /** The byte at offset y of inode j. */
  function ByteAt(d: seq<Block>, ns: seq<Inode>, j: nat, y: nat): (b: Byte)
    requires Mapped(d, ns, j, y / BSIZE)
  {
    d[BlockOf(d, ns, j, y / BSIZE)][y % BSIZE]
  }

  /** Every block below a file's size is mapped. */
  ghost predicate NoHoles(d: seq<Block>, ns: seq<Inode>) {
    && Inodes(ns)
    && (forall j: nat | j < |ns| :: ns[j].size <= LIMIT)
    && (forall j: nat, n: nat | j < |ns| && n * BSIZE < ns[j].size :: Mapped(d, ns, j, n))
  }

  function Content(d: seq<Block>, ns: seq<Inode>, j: nat): (s: seq<Byte>)
    requires NoHoles(d, ns) && j < |ns|
    ensures |s| == ns[j].size
  {
    seq(ns[j].size, y requires 0 <= y < ns[j].size => InFile(d, ns, j, y); ByteAt(d, ns, j, y))
  }

  lemma InFile(d: seq<Block>, ns: seq<Inode>, j: nat, y: nat)
    requires NoHoles(d, ns) && j < |ns| && y < ns[j].size
    ensures Mapped(d, ns, j, y / BSIZE)
  {
    assert y / BSIZE * BSIZE <= y;
  }

  /** A file is its blocks one after the other. */
  lemma ContentBlocks(d: seq<Block>, ns: seq<Inode>, j: nat, n: nat)
    requires NoHoles(d, ns) && j < |ns| && (n + 1) * BSIZE <= ns[j].size
    ensures Mapped(d, ns, j, n) && Content(d, ns, j)[n * BSIZE..(n + 1) * BSIZE] == d[BlockOf(d, ns, j, n)]
  {
    var s := Content(d, ns, j)[n * BSIZE..(n + 1) * BSIZE];
    assert Mapped(d, ns, j, n) by { assert n * BSIZE < ns[j].size; }
    forall k | 0 <= k < BSIZE ensures s[k] == d[BlockOf(d, ns, j, n)][k] {
      var y := n * BSIZE + k;
      assert y / BSIZE == n && y % BSIZE == k;
      assert s[k] == ByteAt(d, ns, j, y);
    }
  }

  /** src was written at offset off of inode ino: those bytes are src, every other mapped byte of
      every file is as before, mapped blocks stay where they are, other inodes gain no block. */
  ghost predicate Wrote(d: seq<Block>, ns: seq<Inode>, e: seq<Block>, ms: seq<Inode>, ino: nat, off: nat, src: seq<Byte>) {
    && Inodes(ns) && Inodes(ms) && |ms| == |ns| && |e| == |d|
    && (forall i | 0 <= i < |ns| :: ms[i].size == ns[i].size)
    && (forall j: nat, n: nat | Mapped(d, ns, j, n) :: Mapped(e, ms, j, n))
    && (forall j: nat, n: nat | Mapped(e, ms, j, n) && j != ino :: Mapped(d, ns, j, n))
    && (forall y: nat | off <= y < off + |src| :: Mapped(e, ms, ino, y / BSIZE) && ByteAt(e, ms, ino, y) == src[y - off])
    && (forall j: nat, y: nat | Mapped(d, ns, j, y / BSIZE) && !(j == ino && off <= y < off + |src|) ::
          Mapped(e, ms, j, y / BSIZE) && ByteAt(e, ms, j, y) == ByteAt(d, ns, j, y))
  }

  lemma WroteTrans(d: seq<Block>, ns: seq<Inode>, e: seq<Block>, ms: seq<Inode>, f: seq<Block>, ls: seq<Inode>,
                   ino: nat, off: nat, s: seq<Byte>, t: seq<Byte>)
    requires Wrote(d, ns, e, ms, ino, off, s) && Wrote(e, ms, f, ls, ino, off + |s|, t)
    ensures Wrote(d, ns, f, ls, ino, off, s + t)
  {
  }

  lemma WroteNothing(d: seq<Block>, ns: seq<Inode>, ino: nat, off: nat)
    requires Inodes(ns)
    ensures Wrote(d, ns, d, ns, ino, off, [])
  {
  }

  /** The contents of a file after src is written at off <= |old|. */
  function Splice(was: seq<Byte>, off: nat, src: seq<Byte>): (s: seq<Byte>)
    requires off <= |was|
  {
    was[..off] + src + (if off + |src| < |was| then was[off + |src|..] else [])
  }

  /** `memmove(bp->data + o, src, m)`. */
  function Patch(b: Block, o: nat, piece: seq<Byte>): (r: Block)
    requires o + |piece| <= BSIZE
    ensures forall k | 0 <= k < BSIZE :: r[k] == if o <= k < o + |piece| then piece[k - o] else b[k]
  {
    b[..o] + piece + b[o + |piece|..]
  }

  /** Changing the content of a data block leaves every tree and the bitmap alone. */
  lemma DataWritten(sb: Super, e: seq<Block>, ms: seq<Inode>, x: Pos, data: Block)
    requires Owned(sb, e, ms, {}) && FsTree.Valid(ms, x) && !Interior(x.path) && At(e, ms, x) != 0
    ensures var f := e[At(e, ms, x) := data];
            Owned(sb, f, ms, {}) && forall y | FsTree.Valid(ms, y) :: At(f, ms, y) == At(e, ms, y)
  {
    var f := e[At(e, ms, x) := data];
    AtFrame(e, f, ms);
    forall y: nat | y < sb.size
      ensures Marked(sb, f, y) == Marked(sb, e, y)
    {
      assert y / BPB <= (sb.size - 1) / BPB;
    }
    OwnedFrame(sb, e, ms, f, ms);
  }

  /** One round of writei's loop: bmap grew the tree, then the block was patched. */
  lemma ChunkWrote(sb: Super, d: seq<Block>, ns: seq<Inode>, e: seq<Block>, ms: seq<Inode>, f: seq<Block>,
                   ino: nat, off: nat, piece: seq<Byte>)
    requires Owned(sb, e, ms, {}) && ino < |ns| && off / BSIZE < MAXFILE && off % BSIZE + |piece| <= BSIZE
    requires Grows(d, ns, e, ms, ino, PathOf(off / BSIZE)) && Mapped(e, ms, ino, off / BSIZE)
    requires var b := BlockOf(e, ms, ino, off / BSIZE); f == e[b := Patch(e[b], off % BSIZE, piece)]
    ensures Owned(sb, f, ms, {}) && Wrote(d, ns, f, ms, ino, off, piece)
  {
    var bn := off / BSIZE;
    var b := BlockOf(e, ms, ino, bn);
    DataWritten(sb, e, ms, Pos(ino, PathOf(bn)), Patch(e[b], off % BSIZE, piece));
    forall j: nat, n: nat | j < |ms| && n < MAXFILE
      ensures BlockOf(f, ms, j, n) == BlockOf(e, ms, j, n)
      ensures (j, n) != (ino, bn) ==> BlockOf(e, ms, j, n) == BlockOf(d, ns, j, n)
      ensures (j, n) != (ino, bn) && BlockOf(e, ms, j, n) != 0 ==> BlockOf(e, ms, j, n) != b
      ensures BlockOf(d, ns, j, n) != 0 ==> BlockOf(e, ms, j, n) == BlockOf(d, ns, j, n)
    {
      if (j, n) != (ino, bn) {
        GrowsElsewhere(d, ns, e, ms, ino, bn, j, n);
        if BlockOf(e, ms, j, n) == b { BlocksDistinct(sb, e, ms, ino, bn, j, n); }
      }
    }
    forall y: nat | off <= y < off + |piece|
      ensures Mapped(f, ms, ino, y / BSIZE) && ByteAt(f, ms, ino, y) == piece[y - off]
    {
      SameBlock(off, y - off);
    }
    forall j: nat, y: nat | Mapped(d, ns, j, y / BSIZE) && !(j == ino && off <= y < off + |piece|)
      ensures Mapped(f, ms, j, y / BSIZE) && ByteAt(f, ms, j, y) == ByteAt(d, ns, j, y)
    {
      DataKept(d, ns, e, ms, ino, bn, j, y);
      if j == ino && y / BSIZE == bn { OutsidePiece(off, y, |piece|); }
    }
  }

  lemma SameBlock(off: nat, k: nat)
    requires off % BSIZE + k < BSIZE
    ensures (off + k) / BSIZE == off / BSIZE && (off + k) % BSIZE == off % BSIZE + k
  {
  }

  lemma OutsidePiece(off: nat, y: nat, m: nat)
    requires y / BSIZE == off / BSIZE && !(off <= y < off + m)
    ensures !(off % BSIZE <= y % BSIZE < off % BSIZE + m)
  {
  }

  lemma DataKept(d: seq<Block>, ns: seq<Inode>, e: seq<Block>, ms: seq<Inode>, ino: nat, bn: nat, j: nat, y: nat)
    requires bn < MAXFILE && Grows(d, ns, e, ms, ino, PathOf(bn)) && Mapped(d, ns, j, y / BSIZE)
    ensures Mapped(e, ms, j, y / BSIZE) && ByteAt(e, ms, j, y) == ByteAt(d, ns, j, y)
  {
    var x := Pos(j, PathOf(y / BSIZE));
    assert At(e, ms, x) == At(d, ns, x);
  }

  /** A size is no part of the trees. */
  lemma Resized(e: seq<Block>, ms: seq<Inode>, ls: seq<Inode>, ino: nat)
    requires Inodes(ms) && ino < |ms| == |ls| && ls == ms[ino := ms[ino].(size := ls[ino].size)]
    ensures Inodes(ls)
    ensures forall j: nat, n: nat :: Mapped(e, ls, j, n) == Mapped(e, ms, j, n)
    ensures forall j: nat, y: nat | Mapped(e, ms, j, y / BSIZE) :: Mapped(e, ls, j, y / BSIZE) && ByteAt(e, ls, j, y) == ByteAt(e, ms, j, y)
  {
  }

  /** A write at or before the end of the file splices its content, keeps it without holes and
      leaves every other file's content alone. */
  lemma WroteContent(d: seq<Block>, ns: seq<Inode>, e: seq<Block>, ms: seq<Inode>, ls: seq<Inode>,
                     ino: nat, off: nat, src: seq<Byte>)
    requires NoHoles(d, ns) && Wrote(d, ns, e, ms, ino, off, src) && ino < |ns| == |ls|
    requires off <= ns[ino].size && off + |src| <= LIMIT
    requires ls == ms[ino := ms[ino].(size := if off + |src| > ns[ino].size then off + |src| else ns[ino].size)]
    ensures NoHoles(e, ls)
    ensures Content(e, ls, ino) == Splice(Content(d, ns, ino), off, src)
    ensures forall j: nat | j < |ns| && j != ino :: Content(e, ls, j) == Content(d, ns, j)
  {
    Resized(e, ms, ls, ino);
    forall j: nat, n: nat | j < |ls| && n * BSIZE < ls[j].size
      ensures Mapped(e, ls, j, n)
    {
      if n * BSIZE < ns[j].size { assert Mapped(d, ns, j, n); } else { assert n * BSIZE / BSIZE == n; }
    }
    forall j: nat, y: nat | j < |ns| && y < ns[j].size
      ensures Mapped(d, ns, j, y / BSIZE)
    {
      InFile(d, ns, j, y);
    }
    forall y: nat | y < ls[ino].size
      ensures Content(e, ls, ino)[y] == Splice(Content(d, ns, ino), off, src)[y]
    {
      InFile(e, ls, ino, y);
    }
    assert Content(e, ls, ino) == Splice(Content(d, ns, ino), off, src);
    forall j: nat | j < |ns| && j != ino
      ensures Content(e, ls, j) == Content(d, ns, j)
    {
      forall y: nat | y < ns[j].size
        ensures Content(e, ls, j)[y] == Content(d, ns, j)[y]
      {
        InFile(e, ls, j, y);
      }
    }
  }

  /** Reading back: the written range is src, and the rest of the file is as it was. */
  lemma SpliceReads(was: seq<Byte>, off: nat, src: seq<Byte>)
    requires off <= |was|
    ensures var s := Splice(was, off, src);
            |s| == (if off + |src| > |was| then off + |src| else |was|)
            && s[off..off + |src|] == src && s[..off] == was[..off]
            && (off + |src| <= |was| ==> s[off + |src|..] == was[off + |src|..])
  {
  }
}
