/** fs.c: the block allocator, bmap, itrunc, readi and writei, and the read and write calls of
    file.c.

    `disk` is the logical disk of LogTheorems: an element is what bread returns, an assignment
    is a change followed by log_write, as FsRecovery.StoreIsLogged has it, except that itrunc clears
    entries of index blocks that it is freeing without one. A method returns ok == false where the
    kernel panics.
 */
module FileSystem {
  import opened Blocks
  import opened Bitmap
  import opened FsTree
  import opened FileContent
  import opened BlockNeed
  import opened FsStores

  /** `((MAXOPBLOCKS-1-1-2) / 2) * 512` */
  const MAXCHUNK: nat := 1536

  /** An open file on an inode. */
  class File {
    const ino: nat
    const readable: bool
    const writable: bool
    var off: nat

    constructor (ino: nat, readable: bool, writable: bool)
      ensures this.ino == ino && this.readable == readable && this.writable == writable && off == 0
    {
      this.ino, this.readable, this.writable, off := ino, readable, writable, 0;
    }
  }

  class Fs {
    const sb: Super
    const disk: array<Block>
    /** In-memory inodes, by number. */
    var inodes: seq<Inode>
    /** Their on-disk copies, as iupdate last wrote them. */
    var dinodes: seq<Inode>
    /** How many times log_write has been called. */
    var logged: nat
    /** The disk at first, every store since then, and the index blocks that itrunc has cleared entries
        of and not freed yet. */
    ghost const boot: FsDisk
    ghost var trace: seq<Store>
    ghost var dirty: set<nat>

    ghost predicate Traced()
      reads this, disk
    {
      Holds(sb, AllMade(boot, trace), disk[..], dinodes, dirty)
    }

    ghost predicate Valid()
      reads this, disk
    {
      Owned(sb, disk[..], inodes, {}) && Traced()
    }

    /** A formatted disk: only the metadata blocks are marked, and every inode is empty. */
    constructor (sb: Super, image: seq<Block>, ninodes: nat)
      requires GoodSuper(sb, image)
      requires forall b: nat | b < sb.size :: Marked(sb, image, b) == (b < sb.data)
      ensures Sound() && disk[..] == image && |inodes| == ninodes && dinodes == inodes && this.sb == sb
      ensures forall i | 0 <= i < ninodes :: inodes[i].size == 0
      ensures trace == [] && boot == FsDisk(image, inodes, {})
    {
      this.sb := sb;
      disk := new Block[|image|](k requires 0 <= k < |image| => image[k]);
      inodes := seq(ninodes, _ => Empty());
      dinodes := seq(ninodes, _ => Empty());
      logged := 0;
      boot := FsDisk(image, seq(ninodes, _ => Empty()), {});
      trace, dirty := [], {};
      new;
      assert disk[..] == image;
      forall x | FsTree.Valid(inodes, x)
        ensures At(image, inodes, x) == 0
      {
        BareInode(image, inodes[x.ino].addrs, x.path);
      }
    }

    /** balloc's search: the first block whose bit is clear, or the disk size. */
    method FindFree() returns (r: nat)
      requires GoodSuper(sb, disk[..])
      ensures r <= sb.size
      ensures r < sb.size ==> !Marked(sb, disk[..], r)
      ensures forall y: nat | y < r :: Marked(sb, disk[..], y)
    {
      var b := 0;
      while b < sb.size
        invariant b % BPB == 0
        invariant forall y: nat | y < b && y < sb.size :: Marked(sb, disk[..], y)
      {
        BitmapBlock(sb, b);
        var bp := disk[sb.bmapstart + b / BPB];
        var bi := 0;
        while bi < BPB && b + bi < sb.size
          invariant bi <= BPB
          invariant forall y: nat | y < b + bi && y < sb.size :: Marked(sb, disk[..], y)
        {
          SameBitmapBlock(b, bi);
          if !BitOf(bp, bi) { return b + bi; }
          bi := bi + 1;
        }
        b := b + BPB;
      }
      r := sb.size;
    }

    /** No block is free. */
    ghost predicate AllMarked()
      reads this, disk
    {
      GoodSuper(sb, disk[..]) && forall y: nat | y < sb.size :: Marked(sb, disk[..], y)
    }

    /** Sets the bit of a free block, and bzero. */
    method MarkAndZero(b: nat)
      requires GoodSuper(sb, disk[..]) && Traced() && sb.data <= b < sb.size
      modifies disk, `logged, `trace
      ensures GoodSuper(sb, disk[..]) && Traced() && disk[b] == Zeroed()
      ensures forall y: nat | y < sb.size :: Marked(sb, disk[..], y) == (y == b || Marked(sb, old(disk[..]), y))
      ensures forall y: nat | sb.data <= y < sb.size && y != b :: disk[y] == old(disk[y])
    {
      ghost var d := disk[..];
      BitmapBlock(sb, b);
      var bb := sb.bmapstart + b / BPB;
      var bits := SetBitOf(disk[bb], b % BPB);
      disk[bb] := bits;
      ghost var e := disk[..];
      disk[b] := Zeroed();
      BitChanged(sb, d, e, b, true);
      SameBitmap(sb, e, disk[..]);
      TwoTraced(sb, boot, trace, d, bb, bits, b, Zeroed(), dinodes, dirty);
      logged, trace := logged + 2, trace + [ToBlock(bb, bits)] + [ToBlock(b, Zeroed())];
    }

    /** balloc: allocate the first free block and zero it. */
    method Balloc(ghost loose: set<nat>) returns (ok: bool, b: nat)
      requires Owned(sb, disk[..], inodes, loose) && Traced()
      modifies disk, `logged, `trace
      ensures Traced()
      ensures ok ==> sb.data <= b < sb.size && Owned(sb, disk[..], inodes, loose + {b}) && disk[b] == Zeroed()
      ensures ok ==> !Marked(sb, old(disk[..]), b) && forall y: nat | y < b :: Marked(sb, old(disk[..]), y)
      ensures ok ==> forall x | FsTree.Valid(inodes, x) :: At(disk[..], inodes, x) == At(old(disk[..]), inodes, x)
      ensures ok ==> forall y: nat | sb.data <= y < sb.size && y != b :: disk[y] == old(disk[y])
      ensures !ok ==> AllMarked() && disk[..] == old(disk[..])
      ensures FreeBlocks(sb, old(disk[..])) == if ok then FreeBlocks(sb, disk[..]) + 1 else 0
    {
      ghost var d := disk[..];
      b := FindFree();
      ok := b < sb.size;
      assert disk[..] == d;
      if ok {
        MarkAndZero(b);
        Allocated(sb, d, disk[..], inodes, loose, b);
        FreeTaken(sb, d, disk[..], b);
      } else {
        FreeBelowNone(sb, d, sb.size);
      }
    }

    /** The operation lacked n blocks: it took that many free ones, or there were fewer and it failed. */
    ghost predicate Charged(d: seq<Block>, ok: bool, n: nat)
      reads this, disk
    {
      if ok then FreeBlocks(sb, d) == FreeBlocks(sb, disk[..]) + n else FreeBlocks(sb, d) < n
    }

    /** `if((addr = ip->addrs[k]) == 0) ip->addrs[k] = addr = balloc()`. */
    method EnsureTop(ino: nat, k: nat) returns (ok: bool, addr: nat)
      requires Valid() && ino < |inodes| && k < NADDR
      modifies disk, `inodes, `logged, `trace
      ensures ok ==> Valid() && Grows(old(disk[..]), old(inodes), disk[..], inodes, ino, Top(k))
      ensures ok ==> addr == At(disk[..], inodes, Pos(ino, Top(k))) && sb.data <= addr < sb.size
      ensures old(inodes)[ino].addrs[k] != 0 ==> ok && Same(old(disk[..]), old(inodes), old(logged), old(trace))
      ensures ok && old(inodes)[ino].addrs[k] == 0 ==> disk[addr] == Zeroed()
      ensures !ok ==> AllMarked()
      ensures Charged(old(disk[..]), ok, if old(inodes)[ino].addrs[k] == 0 then 1 else 0)
    {
      ghost var x := Pos(ino, Top(k));
      ghost var d, ns := disk[..], inodes;
      ok, addr := true, inodes[ino].addrs[k];
      assert addr == At(d, ns, x);
      if addr == 0 {
        ok, addr := Balloc({});
        if ok {
          ghost var e := disk[..];
          inodes := inodes[ino := inodes[ino].(addrs := inodes[ino].addrs[k := addr])];
          Linked(sb, e, ns, disk[..], inodes, {addr}, x, addr);
          LinkGrows(sb, d, ns, disk[..], inodes, x, Top(k), addr);
          assert {addr} - {addr} == {};
        }
      }
    }

    /** `a[i] = addr; log_write(bp);` on index block blk. */
    method PutEntry(blk: nat, i: nat, addr: nat)
      requires Traced() && sb.data <= blk < sb.size && i < NINDIRECT && addr < UINT
      modifies disk, `logged, `trace
      ensures Traced() && disk[..] == old(disk[..])[blk := PutWord(old(disk[..])[blk], i, addr)]
      ensures FreeBlocks(sb, disk[..]) == FreeBlocks(sb, old(disk[..]))
    {
      ghost var d := disk[..];
      var data := PutWord(disk[blk], i, addr);
      DataFree(sb, d, blk, data);
      DataTraced(sb, boot, trace, d, blk, data, dinodes, dirty);
      disk[blk] := data;
      logged, trace := logged + 1, trace + [ToBlock(blk, data)];
    }

    /** The same for a block that balloc has just returned, on disk d before balloc. */
    method LinkEntry(ino: nat, blk: nat, i: nat, addr: nat, ghost q: Path, ghost d: seq<Block>)
      requires Owned(sb, d, inodes, {}) && ino < |inodes| && Good(Sub(q, i)) && |d| == disk.Length
      requires blk == At(d, inodes, Pos(ino, q)) && sb.data <= blk < sb.size && At(d, inodes, Pos(ino, Sub(q, i))) == 0
      requires Owned(sb, disk[..], inodes, {addr}) && sb.data <= addr < sb.size && !Marked(sb, d, addr) && disk[addr] == Zeroed()
      requires forall y | FsTree.Valid(inodes, y) :: At(disk[..], inodes, y) == At(d, inodes, y)
      requires forall y: nat | sb.data <= y < sb.size && y != addr :: disk[y] == d[y]
      requires Traced()
      modifies disk, `logged, `trace
      ensures Valid() && Grows(d, inodes, disk[..], inodes, ino, Sub(q, i))
      ensures At(disk[..], inodes, Pos(ino, Sub(q, i))) == addr && disk[addr] == Zeroed()
      ensures FreeBlocks(sb, disk[..]) == FreeBlocks(sb, old(disk[..]))
    {
      ghost var e := disk[..];
      PutEntry(blk, i, addr);
      EntryLinked(sb, d, inodes, e, disk[..], ino, blk, i, q, addr);
    }

    /** `a[j] = 0;` on an index block that is about to be freed. */
    method ClearEntry(blk: nat, j: nat)
      requires Traced() && sb.data <= blk < sb.size && j < NINDIRECT
      modifies disk, `trace, `dirty
      ensures Traced() && disk[..] == old(disk[..])[blk := PutWord(old(disk[..])[blk], j, 0)] && dirty == old(dirty) + {blk}
    {
      ghost var d := disk[..];
      var data := PutWord(disk[blk], j, 0);
      UnloggedTraced(sb, boot, trace, d, blk, data, dinodes, dirty);
      disk[blk] := data;
      trace, dirty := trace + [Unlogged(blk, data)], dirty + {blk};
    }

    /** `if((addr = a[i]) == 0){ a[i] = addr = balloc(); log_write(bp); }` on index block blk. */
    method EnsureEntry(ino: nat, blk: nat, i: nat, ghost q: Path) returns (ok: bool, addr: nat)
      requires Valid() && ino < |inodes| && Good(Sub(q, i))
      requires blk == At(disk[..], inodes, Pos(ino, q)) && sb.data <= blk < sb.size
      modifies disk, `logged, `trace
      ensures ok ==> Valid() && Grows(old(disk[..]), old(inodes), disk[..], inodes, ino, Sub(q, i))
      ensures ok ==> addr == At(disk[..], inodes, Pos(ino, Sub(q, i))) && sb.data <= addr < sb.size
      ensures Word(old(disk[blk]), i) != 0 ==> ok && Same(old(disk[..]), old(inodes), old(logged), old(trace))
      ensures ok && Word(old(disk[blk]), i) == 0 ==> disk[addr] == Zeroed()
      ensures !ok ==> AllMarked()
      ensures Charged(old(disk[..]), ok, if Word(old(disk[blk]), i) == 0 then 1 else 0)
    {
      ghost var x := Pos(ino, Sub(q, i));
      ghost var d := disk[..];
      ok, addr := true, Word(disk[blk], i);
      assert addr == At(d, inodes, x);
      if addr == 0 {
        ok, addr := Balloc({});
        if ok {
          LinkEntry(ino, blk, i, addr, q, d);
        }
      }
    }

    /** Nothing was written: the disk, the inodes, the count of log_writes and the stores are these. */
    ghost predicate Same(d: seq<Block>, ns: seq<Inode>, n: nat, t: seq<Store>)
      reads this, disk
    {
      disk[..] == d && inodes == ns && logged == n && trace == t
    }

    /** One branch of bmap: from the inode down to p, allocating what is missing on the way. */
    method Walk(ino: nat, p: Path) returns (ok: bool, addr: nat)
      requires Valid() && ino < |inodes| && Good(p)
      modifies disk, `inodes, `logged, `trace
      ensures ok ==> Valid() && Grows(old(disk[..]), old(inodes), disk[..], inodes, ino, p)
      ensures ok ==> addr == At(disk[..], inodes, Pos(ino, p)) && sb.data <= addr < sb.size
      ensures At(old(disk[..]), old(inodes), Pos(ino, p)) != 0 ==> ok && Same(old(disk[..]), old(inodes), old(logged), old(trace))
      ensures ok && At(old(disk[..]), old(inodes), Pos(ino, p)) == 0 ==> disk[addr] == Zeroed()
      ensures !ok ==> AllMarked()
      ensures Charged(old(disk[..]), ok, Gaps(old(disk[..]), old(inodes)[ino].addrs, p))
      decreases p
    {
      match p
      case Top(k) =>
        ok, addr := EnsureTop(ino, k);
      case Sub(q, i) =>
        ghost var d, ns := disk[..], inodes;
        var blk;
        ok, blk := Walk(ino, q);
        if !ok { return false, 0; }
        ghost var e, ms := disk[..], inodes;
        ParentWalked(d, ns, e, ms, ino, q, i);
        ok, addr := EnsureEntry(ino, blk, i, q);
        if ok { GrowsTrans(d, ns, e, ms, disk[..], inodes, ino, p); }
    }

    /** bmap: the block of file block bn, allocating it and its index blocks if missing. */
    method Bmap(ino: nat, bn: nat) returns (ok: bool, addr: nat)
      requires Valid() && ino < |inodes|
      modifies disk, `inodes, `logged, `trace
      ensures ok ==> bn < MAXFILE && Valid() && Grows(old(disk[..]), old(inodes), disk[..], inodes, ino, PathOf(bn))
      ensures ok ==> addr == BlockOf(disk[..], inodes, ino, bn) && sb.data <= addr < sb.size
      ensures bn < MAXFILE && BlockOf(old(disk[..]), old(inodes), ino, bn) != 0 ==> ok && Same(old(disk[..]), old(inodes), old(logged), old(trace))
      ensures ok && BlockOf(old(disk[..]), old(inodes), ino, bn) == 0 ==> disk[addr] == Zeroed()
      ensures !ok ==> bn >= MAXFILE || AllMarked()
      ensures bn < MAXFILE ==> Charged(old(disk[..]), ok, Gaps(old(disk[..]), old(inodes)[ino].addrs, PathOf(bn)))
    {
      var b := bn;
      if b < NDIRECT {
        var p := Top(b);
        assert p == PathOf(bn);
        ok, addr := Walk(ino, p);
        return;
      }
      b := b - NDIRECT;
      if b < NINDIRECT {
        var p := Sub(Top(NDIRECT), b);
        assert p == PathOf(bn);
        ok, addr := Walk(ino, p);
        return;
      }
      b := b - NINDIRECT;
      if b < NDINDIRECT {
        var p := Sub(Sub(Top(NDIRECT + 1), b / NINDIRECT), b % NINDIRECT);
        assert p == PathOf(bn);
        ok, addr := Walk(ino, p);
        return;
      }
      b := b - NDINDIRECT;
      if b < NTINDIRECT {
        var p := Sub(Sub(Sub(Top(NDIRECT + 2), b / NDINDIRECT), b % NDINDIRECT / NINDIRECT), b % NDINDIRECT % NINDIRECT);
        assert p == PathOf(bn);
        ok, addr := Walk(ino, p);
        return;
      }
      ok, addr := false, 0;
    }

    /** bfree; ok is false where the kernel panics with "freeing free block". */
    method Bfree(b: nat) returns (ok: bool)
      requires GoodSuper(sb, disk[..]) && b < sb.size && Traced()
      modifies disk, `logged, `trace
      ensures GoodSuper(sb, disk[..]) && ok == Marked(sb, old(disk[..]), b) && Traced()
      ensures ok ==> forall y: nat | y < sb.size :: Marked(sb, disk[..], y) == (y != b && Marked(sb, old(disk[..]), y))
      ensures forall y: nat | sb.data <= y < sb.size :: disk[y] == old(disk[y])
    {
      BitmapBlock(sb, b);
      ghost var d := disk[..];
      var bb := sb.bmapstart + b / BPB;
      ok := BitOf(disk[bb], b % BPB);
      if ok {
        disk[bb] := ClearBitOf(disk[bb], b % BPB);
        BitChanged(sb, d, disk[..], b, false);
        StoreTraced(sb, boot, trace, d, bb, disk[bb], dinodes, dirty);
        logged, trace := logged + 1, trace + [ToBlock(bb, disk[bb])];
      }
    }

    /** `bfree(ip->addrs[k]); ip->addrs[k] = 0`. */
    method FreeTop(ino: nat, k: nat)
      requires Valid() && ino < |inodes| && k < NADDR && inodes[ino].addrs[k] != 0
      requires Childless(disk[..], inodes, Pos(ino, Top(k)))
      modifies disk, `inodes, `logged, `trace
      ensures Valid() && Shrinks(old(disk[..]), old(inodes), disk[..], inodes, ino)
      ensures inodes == old(inodes)[ino := old(inodes)[ino].(addrs := old(inodes)[ino].addrs[k := 0])]
    {
      ghost var x := Pos(ino, Top(k));
      ghost var d, ns := disk[..], inodes;
      assert At(d, ns, x) == inodes[ino].addrs[k];
      var ok := Bfree(inodes[ino].addrs[k]);
      assert ok;
      inodes := inodes[ino := inodes[ino].(addrs := inodes[ino].addrs[k := 0])];
      Freed(sb, d, ns, d, disk[..], inodes, x);
    }

    /** `bfree(a[j]); a[j] = 0` on index block blk. */
    method FreeEntry(ino: nat, blk: nat, j: nat, ghost p: Path)
      requires Valid() && ino < |inodes| && Good(Sub(p, j))
      requires blk == At(disk[..], inodes, Pos(ino, p)) && sb.data <= blk < sb.size && Word(disk[blk], j) != 0
      requires Childless(disk[..], inodes, Pos(ino, Sub(p, j)))
      modifies disk, `logged, `trace, `dirty
      ensures DirtyOf(old(disk[..]), old(inodes), ino, old(dirty), dirty)
      ensures Valid() && Shrinks(old(disk[..]), inodes, disk[..], inodes, ino)
      ensures forall y | FsTree.Valid(inodes, y) ::
                At(disk[..], inodes, y) == if y == Pos(ino, Sub(p, j)) then 0 else At(old(disk[..]), inodes, y)
    {
      ghost var d := disk[..];
      var a := Word(disk[blk], j);
      assert a == At(d, inodes, Pos(ino, Sub(p, j))) < sb.size && Marked(sb, d, a);
      DirtyOne(d, inodes, ino, p, blk, dirty);
      var ok := Bfree(a);
      ghost var g := disk[..];
      ClearEntry(blk, j);
      EntryFreed(sb, d, inodes, g, disk[..], ino, blk, j, p);
    }

    /** A loop of itrunc over index block blk, whose entries lead to data through h - 1 more
        index blocks: everything below it is freed. */
    method FreeChildren(ino: nat, blk: nat, h: nat, ghost p: Path)
      requires Valid() && ino < |inodes| && Good(p) && 1 <= h == Height(Root(p)) - Level(p)
      requires blk == At(disk[..], inodes, Pos(ino, p)) && sb.data <= blk < sb.size
      modifies disk, `logged, `trace, `dirty
      ensures DirtyOf(old(disk[..]), old(inodes), ino, old(dirty), dirty)
      ensures Valid() && Shrinks(old(disk[..]), inodes, disk[..], inodes, ino)
      ensures Childless(disk[..], inodes, Pos(ino, p))
      ensures forall x | FsTree.Valid(inodes, x) && !Below(x, ino, p) ::
                At(disk[..], inodes, x) == At(old(disk[..]), inodes, x)
      decreases h, 2
    {
      ghost var d := disk[..];
      var j := 0;
      while j < NINDIRECT
        invariant j <= NINDIRECT && Valid() && Cleared(d, disk[..], inodes, ino, p, j)
        invariant DirtyOf(d, inodes, ino, old(dirty), dirty)
      {
        ghost var e, was := disk[..], dirty;
        FreeRound(ino, blk, j, h, p, d);
        DirtyTrans(d, inodes, e, inodes, ino, old(dirty), was, dirty);
        j := j + 1;
      }
      ClearedAll(d, disk[..], inodes, ino, p);
    }

    /** One round of that loop. */
    method FreeRound(ino: nat, blk: nat, j: nat, h: nat, ghost p: Path, ghost d: seq<Block>)
      requires Valid() && Cleared(d, disk[..], inodes, ino, p, j) && j < NINDIRECT && 1 <= h == Height(Root(p)) - Level(p)
      requires blk == At(d, inodes, Pos(ino, p)) && sb.data <= blk < sb.size
      modifies disk, `logged, `trace, `dirty
      ensures DirtyOf(old(disk[..]), old(inodes), ino, old(dirty), dirty)
      ensures Valid() && Cleared(d, disk[..], inodes, ino, p, j + 1)
      decreases h, 1
    {
      ghost var e := disk[..];
      assert At(e, inodes, Pos(ino, p)) == blk;
      if Word(disk[blk], j) != 0 {
        FreeBelow(ino, blk, j, h, p);
      }
      ClearedNext(d, e, disk[..], inodes, ino, p, j);
    }

    /** `bfree` of entry j and, if it is an index block, of all below it first. */
    method FreeBelow(ino: nat, blk: nat, j: nat, h: nat, ghost p: Path)
      requires Valid() && ino < |inodes| && Good(p) && 1 <= h == Height(Root(p)) - Level(p) && j < NINDIRECT
      requires blk == At(disk[..], inodes, Pos(ino, p)) && sb.data <= blk < sb.size && Word(disk[blk], j) != 0
      modifies disk, `logged, `trace, `dirty
      ensures DirtyOf(old(disk[..]), old(inodes), ino, old(dirty), dirty)
      ensures Valid() && Shrinks(old(disk[..]), inodes, disk[..], inodes, ino)
      ensures At(disk[..], inodes, Pos(ino, Sub(p, j))) == 0
      ensures forall x | FsTree.Valid(inodes, x) && !Below(x, ino, p) ::
                At(disk[..], inodes, x) == At(old(disk[..]), inodes, x)
      decreases h, 0
    {
      ghost var q := Sub(p, j);
      ghost var d := disk[..];
      assert At(d, inodes, Pos(ino, q)) == Word(disk[blk], j);
      BelowChild(ino, p, j);
      if h > 1 { FreeChildren(ino, Word(disk[blk], j), h - 1, q); }
      ghost var f := disk[..];
      assert At(f, inodes, Pos(ino, p)) == blk && At(f, inodes, Pos(ino, q)) != 0;
      ghost var was := dirty;
      FreeEntry(ino, blk, j, p);
      ShrinksTrans(d, inodes, f, inodes, disk[..], inodes, ino);
      DirtyTrans(d, inodes, f, inodes, ino, old(dirty), was, dirty);
    }

    /** One of itrunc's sections: the tree under address k, then the block there. */
    method FreeTree(ino: nat, k: nat)
      requires Valid() && ino < |inodes| && k < NADDR && inodes[ino].addrs[k] != 0
      modifies disk, `inodes, `logged, `trace, `dirty
      ensures DirtyOf(old(disk[..]), old(inodes), ino, old(dirty), dirty)
      ensures Valid() && Shrinks(old(disk[..]), old(inodes), disk[..], inodes, ino)
      ensures inodes == old(inodes)[ino := old(inodes)[ino].(addrs := old(inodes)[ino].addrs[k := 0])]
    {
      ghost var d, ns := disk[..], inodes;
      assert At(d, ns, Pos(ino, Top(k))) == inodes[ino].addrs[k];
      if k >= NDIRECT { FreeChildren(ino, inodes[ino].addrs[k], k - NDIRECT + 1, Top(k)); }
      ghost var e := disk[..];
      FreeTop(ino, k);
      ShrinksTrans(d, ns, e, ns, disk[..], inodes, ino);
    }

    /** itrunc's loop over the addresses of the inode. */
    method FreeTrees(ino: nat)
      requires Valid() && ino < |inodes|
      modifies disk, `inodes, `logged, `trace, `dirty
      ensures DirtyOf(old(disk[..]), old(inodes), ino, old(dirty), dirty)
      ensures Valid() && Shrinks(old(disk[..]), old(inodes), disk[..], inodes, ino)
      ensures forall i | 0 <= i < NADDR :: inodes[ino].addrs[i] == 0
    {
      ghost var d, ns := disk[..], inodes;
      var k := 0;
      while k < NADDR
        invariant k <= NADDR && Valid() && Shrinks(d, ns, disk[..], inodes, ino)
        invariant forall i | 0 <= i < k :: inodes[ino].addrs[i] == 0
        invariant DirtyOf(d, ns, ino, old(dirty), dirty)
      {
        if inodes[ino].addrs[k] != 0 {
          ghost var e, ms, was := disk[..], inodes, dirty;
          FreeTree(ino, k);
          ShrinksTrans(d, ns, e, ms, disk[..], inodes, ino);
          DirtyTrans(d, ns, e, ms, ino, old(dirty), was, dirty);
        }
        k := k + 1;
      }
    }

    /** itrunc: afterwards the inode has no blocks and exactly its blocks have become free; no
        other inode has changed in any way, and "freeing free block" is not reached. */
    method Itrunc(ino: nat)
      requires Valid() && ino < |inodes| == |dinodes|
      modifies disk, `inodes, `dinodes, `logged, `trace, `dirty
      ensures Valid() && |inodes| == |old(inodes)| && inodes[ino].size == 0
      ensures forall x | FsTree.Valid(inodes, x) ::
                At(disk[..], inodes, x) == if x.ino == ino then 0 else At(old(disk[..]), old(inodes), x)
      ensures forall i | 0 <= i < |inodes| && i != ino :: inodes[i] == old(inodes)[i]
      ensures forall x | FsTree.Valid(inodes, x) && x.ino != ino && At(disk[..], inodes, x) != 0 ::
                var b := At(disk[..], inodes, x); b < sb.size && disk[b] == old(disk[..])[b]
      ensures forall b: nat | b < sb.size ::
                Marked(sb, disk[..], b) <==>
                Marked(sb, old(disk[..]), b) && (b < sb.data || !OwnedBy(old(disk[..]), old(inodes), ino, b))
      ensures dinodes == old(dinodes)[ino := inodes[ino]] && dirty == old(dirty)
      ensures old(Sound()) ==> Sound() && Content(disk[..], inodes, ino) == []
      ensures old(Sound()) ==> forall j: nat | j < |inodes| && j != ino ::
                Content(disk[..], inodes, j) == Content(old(disk[..]), old(inodes), j)
    {
      ghost var d, ns := disk[..], inodes;
      FreeTrees(ino);
      ghost var g, hs := disk[..], inodes;
      inodes := inodes[ino := inodes[ino].(size := 0)];
      dinodes := dinodes[ino := inodes[ino]];
      logged := logged + 1;
      SizeOnly(sb, g, hs, inodes, ino);
      TruncDone(sb, d, ns, g, hs, inodes, ino);
      DirtyFreed(sb, AllMade(boot, trace), d, ns, ino, old(dirty), dirty);
      InodeTraced(sb, boot, trace, g, old(dinodes), old(dirty), ino, inodes[ino]);
      trace, dirty := trace + [ToInode(ino, inodes[ino])], old(dirty);
      if old(Sound()) { TruncSound(sb, d, ns, g, inodes, ino); }
    }

    /** Trees own their blocks, files have no holes, and inodes are written through. */
    ghost predicate Sound()
      reads this, disk
    {
      Valid() && NoHoles(disk[..], inodes) && dinodes == inodes && dirty == {}
    }

    /** readi on a file. Nothing is allocated, written or logged. */
    method Readi(ino: nat, off: nat, n: nat) returns (r: int, dst: seq<Byte>)
      requires Sound() && ino < |inodes| && off < UINT && n < UINT
      modifies disk, `inodes, `logged, `trace
      ensures Same(old(disk[..]), old(inodes), old(logged), old(trace)) && Sound()
      ensures r == -1 <==> off > inodes[ino].size || off + n >= UINT
      ensures r == -1 ==> dst == []
      ensures r != -1 ==> r == if off + n > inodes[ino].size then inodes[ino].size - off else n
      ensures r != -1 ==> dst == Content(disk[..], inodes, ino)[off..off + r]
    {
      dst := [];
      if off > inodes[ino].size || (off + n) % UINT < off { return -1, []; }
      ghost var d, ns, c, t := disk[..], inodes, logged, trace;
      var m := if off + n > inodes[ino].size then inodes[ino].size - off else n;
      var tot := 0;
      while tot < m
        invariant Same(d, ns, c, t) && tot <= m && off + m <= inodes[ino].size
        invariant dst == Content(d, ns, ino)[off..off + tot]
      {
        dst, tot := ReadChunk(ino, off, m, tot, dst);
      }
      r := m;
    }

    /** One round of readi's loop. */
    method ReadChunk(ino: nat, off: nat, m: nat, tot: nat, dst: seq<Byte>) returns (dst': seq<Byte>, tot': nat)
      requires Sound() && ino < |inodes| && tot < m && off + m <= inodes[ino].size
      requires dst == Content(disk[..], inodes, ino)[off..off + tot]
      modifies disk, `inodes, `logged, `trace
      ensures Same(old(disk[..]), old(inodes), old(logged), old(trace))
      ensures tot < tot' <= m && dst' == Content(disk[..], inodes, ino)[off..off + tot']
    {
      ghost var d, ns := disk[..], inodes;
      var o := off + tot;
      InFile(d, ns, ino, o);
      var ok, b := Bmap(ino, o / BSIZE);
      var k := ChunkLen(o, m - tot);
      assert Content(d, ns, ino)[off..off + tot] + d[b][o % BSIZE..o % BSIZE + k] == Content(d, ns, ino)[off..off + tot + k] by {
        ReadPiece(d, ns, ino, off, tot, b, k);
      }
      dst' := dst + disk[b][o % BSIZE..o % BSIZE + k];
      tot' := tot + k;
    }

    /** File blocks from that of byte off to block n of inode ino have been mapped since (d, ns). */
    ghost predicate Paid(d: seq<Block>, ns: seq<Inode>, ino: nat, off: nat, n: nat)
      reads this, disk
    {
      && ino < |ns| && ino < |inodes|
      && Spent(sb, d, ns[ino].addrs, disk[..], inodes[ino].addrs, off / BSIZE, n)
    }

    /** writei on a file. */
    method Writei(ino: nat, off: nat, src: seq<Byte>) returns (ok: bool, r: int)
      requires Sound() && ino < |inodes| && off < UINT && |src| < UINT
      modifies disk, `inodes, `dinodes, `logged, `trace
      ensures ok ==> Sound() && |inodes| == |old(inodes)|
      ensures ok ==> (r == -1 <==> Refused(old(inodes)[ino].size, off, |src|))
      ensures ok && r == -1 ==> Same(old(disk[..]), old(inodes), old(logged), old(trace))
      ensures ok && r != -1 ==> r == |src|
      ensures ok && r != -1 ==>
                Content(disk[..], inodes, ino) == Splice(Content(old(disk[..]), old(inodes), ino), off, src)
      ensures ok ==> forall j: nat | j < |inodes| && j != ino ::
                Content(disk[..], inodes, j) == Content(old(disk[..]), old(inodes), j)
      ensures !ok ==> AllMarked()
      ensures ok <==> Refused(old(inodes)[ino].size, off, |src|) || !Lacks(sb, old(disk[..]), old(inodes), ino, off, |src|)
      ensures ok && r != -1 ==>
                Spent(sb, old(disk[..]), old(inodes)[ino].addrs, disk[..], inodes[ino].addrs, off / BSIZE, EndBlock(off, |src|))
    {
      if off > inodes[ino].size || (off + |src|) % UINT < off { return true, -1; }
      if off + |src| > LIMIT { return true, -1; }
      ghost var d, ns := disk[..], inodes;
      ok := WriteAll(ino, off, src);
      if !ok { return false, -1; }
      WriteDone(sb, d, ns, disk[..], inodes, ino, off, src);
      if |src| > 0 && off + |src| > inodes[ino].size {
        inodes := inodes[ino := inodes[ino].(size := off + |src|)];
        InodeTraced(sb, boot, trace, disk[..], dinodes, dirty, ino, inodes[ino]);
        dinodes := dinodes[ino := inodes[ino]];
        logged, trace := logged + 1, trace + [ToInode(ino, inodes[ino])];
      }
      ok, r := true, |src|;
    }

    /** writei's loop. */
    method WriteAll(ino: nat, off: nat, src: seq<Byte>) returns (ok: bool)
      requires Sound() && ino < |inodes| && off <= inodes[ino].size && off + |src| <= LIMIT
      modifies disk, `inodes, `logged, `trace
      ensures ok ==> Valid() && Writing(old(disk[..]), old(inodes), disk[..], inodes, ino, off, src, |src|)
      ensures ok ==> Paid(old(disk[..]), old(inodes), ino, off, EndBlock(off, |src|))
      ensures !ok ==> AllMarked() && Lacks(sb, old(disk[..]), old(inodes), ino, off, |src|)
    {
      ghost var d, ns := disk[..], inodes;
      WroteNothing(d, ns, ino, off);
      SuppliedNothing(d, ns[ino].addrs, off / BSIZE);
      assert NextBlock(off, 0, |src|) == off / BSIZE;
      var tot := 0;
      while tot < |src|
        invariant tot <= |src| && Valid() && Writing(d, ns, disk[..], inodes, ino, off, src, tot)
        invariant Paid(d, ns, ino, off, NextBlock(off, tot, |src|))
      {
        if off + |src| <= ns[ino].size { StillMapped(d, ns, disk[..], inodes, ino, off, src, tot); }
        ok, tot := WriteChunk(ino, off, src, tot, d, ns);
        if !ok { return false; }
      }
      ok := true;
    }

    /** One round of writei's loop. */
    method WriteChunk(ino: nat, off: nat, src: seq<Byte>, tot: nat, ghost d: seq<Block>, ghost ns: seq<Inode>)
      returns (ok: bool, tot': nat)
      requires Valid() && Writing(d, ns, disk[..], inodes, ino, off, src, tot) && tot < |src| && off + |src| <= LIMIT
      requires off + |src| <= ns[ino].size ==> Mapped(disk[..], inodes, ino, (off + tot) / BSIZE)
      requires Paid(d, ns, ino, off, NextBlock(off, tot, |src|))
      modifies disk, `inodes, `logged, `trace
      ensures tot < tot' <= |src|
      ensures ok ==> Valid() && Writing(d, ns, disk[..], inodes, ino, off, src, tot')
      ensures ok ==> Paid(d, ns, ino, off, NextBlock(off, tot', |src|))
      ensures !ok ==> AllMarked() && Lacks(sb, d, ns, ino, off, |src|)
    {
      ghost var e, ms := disk[..], inodes;
      var o := off + tot;
      tot' := tot + ChunkLen(o, |src| - tot);
      var piece := src[tot..tot'];
      ok := PatchBlock(ino, o, piece);
      if !ok {
        ChunkShort(sb, d, ns, e, ms[ino].addrs, ino, off, tot, o, |src|);
      } else {
        ChunkDone(sb, d, ns, e, ms, disk[..], inodes, ino, off, src, tot, tot', o, piece);
      }
    }

    /** bread of the block that bmap gives for offset o, memmove into it, log_write. */
    method PatchBlock(ino: nat, o: nat, piece: seq<Byte>) returns (ok: bool)
      requires Valid() && ino < |inodes| && o < LIMIT && o % BSIZE + |piece| <= BSIZE
      modifies disk, `inodes, `logged, `trace
      ensures ok ==> Valid() && Wrote(old(disk[..]), old(inodes), disk[..], inodes, ino, o, piece)
      ensures ok ==> forall i | 0 <= i < |inodes| && i != ino :: inodes[i] == old(inodes)[i]
      ensures ok && Mapped(old(disk[..]), old(inodes), ino, o / BSIZE) ==> inodes == old(inodes)
      ensures !ok ==> AllMarked()
      ensures ok ==> FilledTo(old(disk[..]), old(inodes)[ino].addrs, disk[..], inodes[ino].addrs, PathOf(o / BSIZE))
      ensures Charged(old(disk[..]), ok, Gaps(old(disk[..]), old(inodes)[ino].addrs, PathOf(o / BSIZE)))
    {
      ghost var e, ms := disk[..], inodes;
      var b;
      ok, b := Bmap(ino, o / BSIZE);
      if ok {
        ghost var f := disk[..];
        PatchFilled(sb, e, ms, f, inodes, ino, o / BSIZE, Patch(disk[b], o % BSIZE, piece));
        DataTraced(sb, boot, trace, f, b, Patch(disk[b], o % BSIZE, piece), dinodes, dirty);
        disk[b] := Patch(disk[b], o % BSIZE, piece);
        logged, trace := logged + 1, trace + [ToBlock(b, disk[b])];
        ChunkWrote(sb, e, ms, f, inodes, disk[..], ino, o, piece);
      }
    }

    /** fileread on an inode: no transaction is open, and none is needed. */
    method Fileread(f: File, n: nat) returns (r: int, dst: seq<Byte>)
      requires Sound() && f.ino < |inodes| && f.off < UINT && n < UINT
      modifies disk, `inodes, `logged, `trace, f`off
      ensures Same(old(disk[..]), old(inodes), old(logged), old(trace)) && Sound()
      ensures r == -1 <==> !f.readable || old(f.off) > inodes[f.ino].size || old(f.off) + n >= UINT
      ensures r == -1 ==> f.off == old(f.off)
      ensures r != -1 ==> 0 <= r && f.off == old(f.off) + r <= inodes[f.ino].size
      ensures r != -1 ==> dst == Content(disk[..], inodes, f.ino)[old(f.off)..f.off]
    {
      if !f.readable { return -1, []; }
      r, dst := Readi(f.ino, f.off, n);
      if r > 0 { f.off := f.off + r; }
    }

    /** filewrite on an inode: chunks of at most MAXCHUNK bytes, each its own transaction. If the
        whole write fits it has the effect of one write of all of src; otherwise whole chunks are
        written up to the first that writei refuses. */
    method Filewrite(f: File, src: seq<Byte>) returns (ok: bool, r: int)
      requires Sound() && f.ino < |inodes| && f.off < UINT && |src| < UINT / 2
      modifies disk, `inodes, `dinodes, `logged, `trace, f`off
      ensures ok ==> Sound() && |inodes| == |old(inodes)| && old(f.off) <= f.off <= old(f.off) + |src|
      ensures ok ==> (r == |src| <==> f.writable && Fits(old(inodes)[f.ino].size, old(f.off), |src|)) && (r == |src| || r == -1)
      ensures ok && r == |src| ==> f.off == old(f.off) + |src|
      ensures ok && old(f.off) <= old(inodes)[f.ino].size ==>
                Content(disk[..], inodes, f.ino)
                == Splice(Content(old(disk[..]), old(inodes), f.ino), old(f.off), src[..f.off - old(f.off)])
      ensures ok && old(f.off) > old(inodes)[f.ino].size ==> f.off == old(f.off)
      ensures ok && old(f.off) > old(inodes)[f.ino].size ==>
                Content(disk[..], inodes, f.ino) == Content(old(disk[..]), old(inodes), f.ino)
      ensures ok && r == -1 && f.writable && old(f.off) <= old(inodes)[f.ino].size ==>
                (f.off - old(f.off)) % MAXCHUNK == 0 && f.off <= LIMIT
                && f.off + (if old(f.off) + |src| - f.off > MAXCHUNK then MAXCHUNK else old(f.off) + |src| - f.off) > LIMIT
      ensures ok ==> forall j: nat | j < |inodes| && j != f.ino ::
                Content(disk[..], inodes, j) == Content(old(disk[..]), old(inodes), j)
      ensures !ok ==> AllMarked()
      ensures ok <==> !f.writable
                      || !Lacks(sb, old(disk[..]), old(inodes), f.ino, old(f.off), Accepted(old(inodes)[f.ino].size, old(f.off), |src|))
      ensures ok && f.writable ==> f.off == old(f.off) + Accepted(old(inodes)[f.ino].size, old(f.off), |src|)
    {
      SpliceNothing(disk[..], inodes, f.ino, f.off);
      if !f.writable {
        assert src[..0] == [];
        return true, -1;
      }
      var i;
      ok, i := WriteChunks(f, src);
      assert src[..|src|] == src;
      r := if i == |src| then |src| else -1;
    }

    /** filewrite's loop: i bytes were written, in whole chunks, and writei refused the next chunk
        if i is not all. */
    method WriteChunks(f: File, src: seq<Byte>) returns (ok: bool, i: nat)
      requires Sound() && f.ino < |inodes| && f.off < UINT && |src| < UINT / 2
      modifies disk, `inodes, `dinodes, `logged, `trace, f`off
      ensures ok ==> Sound() && |inodes| == |old(inodes)| && i <= |src| && f.off == old(f.off) + i
      ensures ok ==> Chunked(old(disk[..]), old(inodes), disk[..], inodes, f.ino, old(f.off), src, i)
      ensures ok && i > 0 ==> old(f.off) <= old(inodes)[f.ino].size && old(f.off) + i <= LIMIT
      ensures ok && i < |src| ==>
                i % MAXCHUNK == 0 && Refused(inodes[f.ino].size, f.off, ChunkSize(i, |src|))
      ensures !ok ==> AllMarked()
      ensures ok <==> !Lacks(sb, old(disk[..]), old(inodes), f.ino, old(f.off), Accepted(old(inodes)[f.ino].size, old(f.off), |src|))
      ensures ok ==> i == Accepted(old(inodes)[f.ino].size, old(f.off), |src|)
    {
      SpliceNothing(disk[..], inodes, f.ino, f.off);
      assert src[..0] == [];
      ghost var d, ns, off := disk[..], inodes, f.off;
      NothingPaid(sb, d, ns, f.ino, off);
      i := 0;
      ok := true;
      while i < |src|
        invariant ok && i <= |src| && f.off == off + i && Sound() && |inodes| == |ns| && AtChunk(i, |src|)
        invariant Chunked(d, ns, disk[..], inodes, f.ino, off, src, i)
        invariant i > 0 ==> off <= ns[f.ino].size && off + i <= LIMIT
        invariant off <= ns[f.ino].size ==> Paid(d, ns, f.ino, off, EndBlock(off, i))
        decreases |src| - i
      {
        var r;
        ok, r := WriteRound(f, src, i, ChunkSize(i, |src|), d, ns, off);
        if !ok { return; }
        if r < 0 { break; }
        i := i + r;
      }
      WroteAccepted(sb, d, ns, disk[..], inodes, f.ino, off, i, |src|);
    }

    /** One round of filewrite: writei of n1 bytes, and the offset moved on. */
    method WriteRound(f: File, src: seq<Byte>, i: nat, n1: nat, ghost d: seq<Block>, ghost ns: seq<Inode>, ghost off: nat)
      returns (ok: bool, r: int)
      requires Sound() && f.ino < |inodes| && f.off == off + i < UINT && i < |src| < UINT / 2
      requires AtChunk(i, |src|) && n1 == ChunkSize(i, |src|)
      requires Chunked(d, ns, disk[..], inodes, f.ino, off, src, i) && (i > 0 ==> off <= ns[f.ino].size)
      requires off <= ns[f.ino].size ==> Paid(d, ns, f.ino, off, EndBlock(off, i))
      modifies disk, `inodes, `dinodes, `logged, `trace, f`off
      ensures ok ==> Sound() && |inodes| == |old(inodes)|
      ensures ok ==> (r == -1 <==> Refused(old(inodes)[f.ino].size, old(f.off), n1)) && (r == -1 || r == n1)
      ensures ok && r == -1 ==> f.off == old(f.off) && inodes == old(inodes) && disk[..] == old(disk[..])
      ensures ok && r == n1 ==>
                && Chunked(d, ns, disk[..], inodes, f.ino, off, src, i + n1) && AtChunk(i + n1, |src|)
                && f.off == old(f.off) + n1 <= LIMIT && off <= ns[f.ino].size
                && Paid(d, ns, f.ino, off, EndBlock(off, i + n1))
      ensures !ok ==> AllMarked() && Lacks(sb, d, ns, f.ino, off, Accepted(ns[f.ino].size, off, |src|))
    {
      ok, r := WritePiece(f.ino, f.off, src, i, n1, d, ns, off);
      if ok && r > 0 { f.off := f.off + r; }
    }

    /** The writei of that round, at o. */
    method WritePiece(ino: nat, o: nat, src: seq<Byte>, i: nat, n1: nat, ghost d: seq<Block>, ghost ns: seq<Inode>, ghost off: nat)
      returns (ok: bool, r: int)
      requires Sound() && ino < |inodes| && o == off + i < UINT && i < |src| < UINT / 2
      requires AtChunk(i, |src|) && n1 == ChunkSize(i, |src|)
      requires Chunked(d, ns, disk[..], inodes, ino, off, src, i) && (i > 0 ==> off <= ns[ino].size)
      requires off <= ns[ino].size ==> Paid(d, ns, ino, off, EndBlock(off, i))
      modifies disk, `inodes, `dinodes, `logged, `trace
      ensures ok ==> Sound() && |inodes| == |old(inodes)|
      ensures ok ==> (r == -1 <==> Refused(old(inodes)[ino].size, o, n1)) && (r == -1 || r == n1)
      ensures ok && r == -1 ==> inodes == old(inodes) && disk[..] == old(disk[..])
      ensures ok && r == n1 ==>
                && Chunked(d, ns, disk[..], inodes, ino, off, src, i + n1) && AtChunk(i + n1, |src|)
                && o + n1 <= LIMIT && off <= ns[ino].size && Paid(d, ns, ino, off, EndBlock(off, i + n1))
      ensures !ok ==> AllMarked() && Lacks(sb, d, ns, ino, off, Accepted(ns[ino].size, off, |src|))
    {
      ghost var e, ms := disk[..], inodes;
      var piece := src[i..i + n1];
      assert off <= ns[ino].size <==> o <= ms[ino].size;
      ok, r := Writei(ino, o, piece);
      if !ok {
        RoundShort(sb, d, ns, e, ms, ino, off, i, o, n1, |src|);
      } else if r > 0 {
        RoundDone(sb, d, ns, e, ms, disk[..], inodes, ino, off, src, i, n1, o, piece);
      }
    }
  }

  // ---- the account of the stores ----

  lemma StoreTraced(sb: Super, boot: FsDisk, trace: seq<Store>, d: seq<Block>, b: nat, data: Block, ns: seq<Inode>, dirty: set<nat>)
    requires Holds(sb, AllMade(boot, trace), d, ns, dirty) && b < sb.size && GoodSuper(sb, d[b := data])
    requires forall y: nat | y < sb.size && Marked(sb, d[b := data], y) :: Marked(sb, d, y)
    ensures Holds(sb, AllMade(boot, trace + [ToBlock(b, data)]), d[b := data], ns, dirty)
  {
    MadeLast(boot, trace, ToBlock(b, data));
    StoreHolds(sb, AllMade(boot, trace), b, data, dirty);
  }

  lemma DataTraced(sb: Super, boot: FsDisk, trace: seq<Store>, d: seq<Block>, b: nat, data: Block, ns: seq<Inode>, dirty: set<nat>)
    requires Holds(sb, AllMade(boot, trace), d, ns, dirty) && sb.data <= b < sb.size
    ensures Holds(sb, AllMade(boot, trace + [ToBlock(b, data)]), d[b := data], ns, dirty)
  {
    SameBitmap(sb, d, d[b := data]);
    StoreTraced(sb, boot, trace, d, b, data, ns, dirty);
  }

  lemma TwoTraced(sb: Super, boot: FsDisk, trace: seq<Store>, d: seq<Block>, bb: nat, bits: Block, b: nat, data: Block,
                  ns: seq<Inode>, dirty: set<nat>)
    requires Holds(sb, AllMade(boot, trace), d, ns, dirty) && bb < sb.size && b < sb.size && GoodSuper(sb, d[bb := bits][b := data])
    requires forall y: nat | y < sb.size && Marked(sb, d[bb := bits][b := data], y) :: y == b || Marked(sb, d, y)
    ensures Holds(sb, AllMade(boot, trace + [ToBlock(bb, bits)] + [ToBlock(b, data)]), d[bb := bits][b := data], ns, dirty)
  {
    MadeLast(boot, trace, ToBlock(bb, bits));
    MadeLast(boot, trace + [ToBlock(bb, bits)], ToBlock(b, data));
    TwoStoresHold(sb, AllMade(boot, trace), bb, bits, b, data, dirty);
  }

  lemma UnloggedTraced(sb: Super, boot: FsDisk, trace: seq<Store>, d: seq<Block>, b: nat, data: Block, ns: seq<Inode>, dirty: set<nat>)
    requires Holds(sb, AllMade(boot, trace), d, ns, dirty) && sb.data <= b < sb.size
    ensures Holds(sb, AllMade(boot, trace + [Unlogged(b, data)]), d[b := data], ns, dirty + {b})
  {
    SameBitmap(sb, d, d[b := data]);
    MadeLast(boot, trace, Unlogged(b, data));
    UnloggedHolds(sb, AllMade(boot, trace), b, data, dirty);
  }

  lemma InodeTraced(sb: Super, boot: FsDisk, trace: seq<Store>, d: seq<Block>, ns: seq<Inode>, dirty: set<nat>, ino: nat, n: Inode)
    requires Holds(sb, AllMade(boot, trace), d, ns, dirty) && ino < |ns|
    ensures Holds(sb, AllMade(boot, trace + [ToInode(ino, n)]), d, ns[ino := n], dirty)
  {
    MadeLast(boot, trace, ToInode(ino, n));
  }

  /** Index blocks whose entries were cleared belong to inode ino. */
  ghost predicate DirtyOf(d: seq<Block>, ns: seq<Inode>, ino: nat, was: set<nat>, now: set<nat>) {
    Inodes(ns) && forall b | b in now :: b in was || (b != 0 && OwnedBy(d, ns, ino, b))
  }

  lemma DirtyOne(d: seq<Block>, ns: seq<Inode>, ino: nat, p: Path, b: nat, was: set<nat>)
    requires Inodes(ns) && FsTree.Valid(ns, Pos(ino, p)) && b == At(d, ns, Pos(ino, p)) != 0
    ensures DirtyOf(d, ns, ino, was, was + {b})
  {
  }

  lemma DirtyTrans(d: seq<Block>, ns: seq<Inode>, e: seq<Block>, ms: seq<Inode>, ino: nat, a: set<nat>, b: set<nat>, c: set<nat>)
    requires Shrinks(d, ns, e, ms, ino) && DirtyOf(d, ns, ino, a, b) && DirtyOf(e, ms, ino, b, c)
    ensures DirtyOf(d, ns, ino, a, c)
  {
    forall y | y in c && y !in a
      ensures y != 0 && OwnedBy(d, ns, ino, y)
    {
      if y !in b {
        var x :| FsTree.Valid(ms, x) && x.ino == ino && At(e, ms, x) == y;
        assert FsTree.Valid(ns, x) && At(d, ns, x) == y;
      }
    }
  }

  /** They are all free when the truncation is done. */
  lemma DirtyFreed(sb: Super, v: FsDisk, d: seq<Block>, ns: seq<Inode>, ino: nat, was: set<nat>, now: set<nat>)
    requires Tidy(sb, v, now) && DirtyOf(d, ns, ino, was, now) && Owned(sb, d, ns, {})
    requires forall b: nat | b < sb.size :: Marked(sb, v.disk, b) ==> b < sb.data || !OwnedBy(d, ns, ino, b)
    ensures Tidy(sb, v, was)
  {
    forall b | b in v.stale && b !in was
      ensures b < sb.size && !Marked(sb, v.disk, b)
    {
      if b in now {
        var x :| FsTree.Valid(ns, x) && x.ino == ino && At(d, ns, x) == b;
      }
    }
  }

  function Empty(): (n: Inode) { Inode(0, seq(NADDR, _ => 0)) }

  lemma BitmapBlock(sb: Super, b: nat)
    requires b < sb.size
    ensures b / BPB <= (sb.size - 1) / BPB
  {
  }

  lemma SameBitmapBlock(b: nat, bi: nat)
    requires b % BPB == 0 && bi < BPB
    ensures (b + bi) / BPB == b / BPB && (b + bi) % BPB == bi
  {
  }

  /** Changing one bit of the bitmap changes one block's mark. */
  lemma BitChanged(sb: Super, d: seq<Block>, e: seq<Block>, b: nat, on: bool)
    requires GoodSuper(sb, d) && GoodSuper(sb, e) && b < sb.size
    requires sb.bmapstart + b / BPB < sb.size
    requires var bb := sb.bmapstart + b / BPB;
             e == d[bb := if on then SetBitOf(d[bb], b % BPB) else ClearBitOf(d[bb], b % BPB)]
    ensures forall y: nat | y < sb.size :: Marked(sb, e, y) == if y == b then on else Marked(sb, d, y)
  {
    forall y: nat | y < sb.size
      ensures Marked(sb, e, y) == if y == b then on else Marked(sb, d, y)
    {
      BitmapBlock(sb, y);
      if y / BPB == b / BPB && y % BPB == b % BPB { assert y == b; }
    }
  }

  lemma SameBitmap(sb: Super, d: seq<Block>, e: seq<Block>)
    requires GoodSuper(sb, d) && GoodSuper(sb, e)
    requires forall y: nat | y < sb.data :: e[y] == d[y]
    ensures forall y: nat | y < sb.size :: Marked(sb, e, y) == Marked(sb, d, y)
  {
    forall y: nat | y < sb.size
      ensures Marked(sb, e, y) == Marked(sb, d, y)
    {
      BitmapBlock(sb, y);
    }
  }

  /** A block freed in the bitmap and then cleared in its index block has no owner left. */
  lemma EntryFreed(sb: Super, d: seq<Block>, ns: seq<Inode>, g: seq<Block>, f: seq<Block>,
                   ino: nat, blk: nat, j: nat, p: Path)
    requires Owned(sb, d, ns, {}) && ino < |ns| && Good(Sub(p, j)) && blk == At(d, ns, Pos(ino, p)) && sb.data <= blk < sb.size
    requires Word(d[blk], j) != 0 && Childless(d, ns, Pos(ino, Sub(p, j)))
    requires GoodSuper(sb, g) && forall y: nat | sb.data <= y < sb.size :: g[y] == d[y]
    requires forall y: nat | y < sb.size :: Marked(sb, g, y) == (y != Word(d[blk], j) && Marked(sb, d, y))
    requires f == g[blk := PutWord(g[blk], j, 0)]
    ensures Owned(sb, f, ns, {}) && Shrinks(d, ns, f, ns, ino)
    ensures forall y | FsTree.Valid(ns, y) :: At(f, ns, y) == if y == Pos(ino, Sub(p, j)) then 0 else At(d, ns, y)
  {
    var x := Pos(ino, Sub(p, j));
    assert At(d, ns, x) == Word(d[blk], j);
    var w := PutWord(d[blk], j, 0);
    var e := d[blk := w];
    SameBitmap(sb, g, f);
    Freed(sb, d, ns, e, f, ns, x);
    forall y | FsTree.Valid(ns, y) && y.ino != ino && 0 < At(d, ns, y) < |d|
      ensures f[At(d, ns, y)] == d[At(d, ns, y)]
    {
      assert At(d, ns, y) != blk;
    }
  }

  /** A loose block is not the index block at x. */
  lemma NotOwned(sb: Super, d: seq<Block>, ns: seq<Inode>, b: nat, x: Pos)
    requires Owned(sb, d, ns, {b}) && FsTree.Valid(ns, x)
    ensures At(d, ns, x) != b
  {
  }

  /** Storing a fresh block at x, on the way to leaf, only grows the tree. */
  lemma LinkGrows(sb: Super, d: seq<Block>, ns: seq<Inode>, f: seq<Block>, ms: seq<Inode>, x: Pos, leaf: Path, b: nat)
    requires Owned(sb, d, ns, {}) && FsTree.Valid(ns, x) && At(d, ns, x) == 0 && b < sb.size && !Marked(sb, d, b)
    requires Inodes(ms) && |ms| == |ns| && |f| == |d| && OnWay(x.path, leaf)
    requires forall i | 0 <= i < |ns| :: ms[i].size == ns[i].size && (i != x.ino ==> ms[i] == ns[i])
    requires forall y | FsTree.Valid(ns, y) :: At(f, ms, y) == if y == x then b else At(d, ns, y)
    requires forall y: nat | sb.data <= y < sb.size && y != b && (x.path.Sub? ==> y != At(d, ns, Pos(x.ino, x.path.parent))) :: f[y] == d[y]
    ensures Grows(d, ns, f, ms, x.ino, leaf)
  {
  }

  /** A block fresh from balloc stored in an empty entry of an index block. */
  lemma EntryLinked(sb: Super, d: seq<Block>, ns: seq<Inode>, e: seq<Block>, f: seq<Block>,
                    ino: nat, blk: nat, i: nat, q: Path, b: nat)
    requires Owned(sb, d, ns, {}) && ino < |ns| && Good(Sub(q, i))
    requires blk == At(d, ns, Pos(ino, q)) && sb.data <= blk < sb.size && At(d, ns, Pos(ino, Sub(q, i))) == 0
    requires Owned(sb, e, ns, {b}) && sb.data <= b < sb.size && !Marked(sb, d, b) && e[b] == Zeroed() && |e| == |d|
    requires forall y | FsTree.Valid(ns, y) :: At(e, ns, y) == At(d, ns, y)
    requires forall y: nat | sb.data <= y < sb.size && y != b :: e[y] == d[y]
    requires f == e[blk := PutWord(e[blk], i, b)]
    ensures Owned(sb, f, ns, {}) && Grows(d, ns, f, ns, ino, Sub(q, i))
    ensures At(f, ns, Pos(ino, Sub(q, i))) == b && f[b] == Zeroed()
  {
    var x := Pos(ino, Sub(q, i));
    NotOwned(sb, e, ns, b, Pos(ino, q));
    Linked(sb, e, ns, f, ns, {b}, x, b);
    assert {b} - {b} == {};
    LinkGrows(sb, d, ns, f, ns, x, Sub(q, i), b);
  }

  /** The walk to an index block, as a part of the walk to one of its entries, leaves that entry. */
  lemma ParentWalked(d: seq<Block>, ns: seq<Inode>, e: seq<Block>, ms: seq<Inode>, ino: nat, q: Path, i: nat)
    requires Grows(d, ns, e, ms, ino, q) && ino < |ns| && Good(Sub(q, i))
    ensures Grows(d, ns, e, ms, ino, Sub(q, i))
    ensures At(e, ms, Pos(ino, Sub(q, i))) == At(d, ns, Pos(ino, Sub(q, i)))
  {
    if OnWay(Sub(q, i), q) { OnWayLevel(Sub(q, i), q); }
  }

  /** Writing past the metadata leaves the number of free blocks. */
  lemma DataFree(sb: Super, d: seq<Block>, b: nat, data: Block)
    requires GoodSuper(sb, d) && sb.data <= b < sb.size
    ensures FreeBlocks(sb, d[b := data]) == FreeBlocks(sb, d)
  {
    SameBitmap(sb, d, d[b := data]);
    FreeSame(sb, d, d[b := data]);
  }

  /** Entries below j of the index block at p are clear, and nothing outside it has changed. */
  ghost predicate Cleared(d: seq<Block>, e: seq<Block>, ns: seq<Inode>, ino: nat, p: Path, j: nat) {
    && Shrinks(d, ns, e, ns, ino) && ino < |ns| && Good(p) && Interior(p) && j <= NINDIRECT
    && (forall i: nat | i < j :: At(e, ns, Pos(ino, Sub(p, i))) == 0)
    && (forall x | FsTree.Valid(ns, x) && !Below(x, ino, p) :: At(e, ns, x) == At(d, ns, x))
  }

  lemma ClearedAll(d: seq<Block>, e: seq<Block>, ns: seq<Inode>, ino: nat, p: Path)
    requires Cleared(d, e, ns, ino, p, NINDIRECT)
    ensures Shrinks(d, ns, e, ns, ino) && Childless(e, ns, Pos(ino, p))
    ensures forall x | FsTree.Valid(ns, x) && !Below(x, ino, p) :: At(e, ns, x) == At(d, ns, x)
  {
  }

  lemma ClearedNext(d: seq<Block>, e: seq<Block>, f: seq<Block>, ns: seq<Inode>, ino: nat, p: Path, j: nat)
    requires Cleared(d, e, ns, ino, p, j) && j < NINDIRECT && Shrinks(e, ns, f, ns, ino)
    requires At(f, ns, Pos(ino, Sub(p, j))) == 0
    requires forall x | FsTree.Valid(ns, x) && !Below(x, ino, p) :: At(f, ns, x) == At(e, ns, x)
    ensures Cleared(d, f, ns, ino, p, j + 1)
  {
    ShrinksTrans(d, ns, e, ns, f, ns, ino);
    forall i: nat | i < j + 1
      ensures At(f, ns, Pos(ino, Sub(p, i))) == 0
    {
      assert FsTree.Valid(ns, Pos(ino, Sub(p, i)));
    }
  }

  lemma TruncSound(sb: Super, d: seq<Block>, ns: seq<Inode>, e: seq<Block>, ms: seq<Inode>, ino: nat)
    requires NoHoles(d, ns) && Owned(sb, d, ns, {}) && Inodes(ms) && ino < |ns| == |ms| && ms[ino].size == 0 && |e| == |d|
    requires forall i | 0 <= i < |ns| && i != ino :: ms[i] == ns[i]
    requires forall x | FsTree.Valid(ns, x) && x.ino != ino :: At(e, ms, x) == At(d, ns, x)
    requires forall x | FsTree.Valid(ms, x) && x.ino != ino && At(e, ms, x) != 0 ::
               At(e, ms, x) < |e| && e[At(e, ms, x)] == d[At(e, ms, x)]
    ensures NoHoles(e, ms) && Content(e, ms, ino) == []
    ensures forall j: nat | j < |ms| && j != ino :: Content(e, ms, j) == Content(d, ns, j)
  {
    forall j: nat, n: nat | Mapped(d, ns, j, n) && j != ino
      ensures Mapped(e, ms, j, n) && BlockOf(e, ms, j, n) == BlockOf(d, ns, j, n)
      ensures e[BlockOf(e, ms, j, n)] == d[BlockOf(d, ns, j, n)]
    {
      assert At(e, ms, Pos(j, PathOf(n))) == At(d, ns, Pos(j, PathOf(n)));
    }
    forall j: nat, y: nat | j < |ms| && j != ino && y < ms[j].size
      ensures Mapped(d, ns, j, y / BSIZE)
    {
      InFile(d, ns, j, y);
    }
  }

  /** What lies strictly below entry j of p lies strictly below p, and is neither p nor an entry
      of p. */
  lemma BelowChild(ino: nat, p: Path, j: nat)
    ensures forall x | Below(x, ino, Sub(p, j)) :: Below(x, ino, p)
    ensures !Below(Pos(ino, p), ino, Sub(p, j))
    ensures forall i: nat :: !Below(Pos(ino, Sub(p, i)), ino, Sub(p, j))
    ensures Below(Pos(ino, Sub(p, j)), ino, p)
  {
    assert Level(Sub(p, j)) == Level(p) + 1;
    forall x | Below(x, ino, Sub(p, j))
      ensures Below(x, ino, p)
    {
      OnWayTrans(p, Sub(p, j), x.path);
      OnWayLevel(Sub(p, j), x.path);
    }
    if OnWay(Sub(p, j), p) { OnWayLevel(Sub(p, j), p); }
  }

  /** Sizes play no part in ownership. */
  lemma SizeOnly(sb: Super, d: seq<Block>, ns: seq<Inode>, ms: seq<Inode>, ino: nat)
    requires Owned(sb, d, ns, {}) && ino < |ns| == |ms|
    requires ms == ns[ino := ns[ino].(size := ms[ino].size)]
    ensures Owned(sb, d, ms, {})
    ensures forall x | FsTree.Valid(ns, x) :: At(d, ms, x) == At(d, ns, x)
  {
    forall x | FsTree.Valid(ns, x)
      ensures At(d, ms, x) == At(d, ns, x)
    {
    }
    OwnedFrame(sb, d, ns, d, ms);
  }

  lemma TruncDone(sb: Super, d: seq<Block>, ns: seq<Inode>, e: seq<Block>, hs: seq<Inode>, ms: seq<Inode>, ino: nat)
    requires Owned(sb, d, ns, {}) && Owned(sb, e, ms, {}) && ino < |ns| == |hs| == |ms|
    requires Shrinks(d, ns, e, hs, ino) && ms == hs[ino := hs[ino].(size := 0)]
    requires forall k | 0 <= k < NADDR :: ms[ino].addrs[k] == 0
    ensures forall x | FsTree.Valid(ns, x) :: At(e, ms, x) == if x.ino == ino then 0 else At(d, ns, x)
    ensures forall x | FsTree.Valid(ms, x) && x.ino != ino && At(e, ms, x) != 0 ::
              At(e, ms, x) < sb.size && e[At(e, ms, x)] == d[At(e, ms, x)]
    ensures forall b: nat | b < sb.size ::
              Marked(sb, e, b) <==> Marked(sb, d, b) && (b < sb.data || !OwnedBy(d, ns, ino, b))
  {
    forall x | FsTree.Valid(ns, x)
      ensures At(e, ms, x) == if x.ino == ino then 0 else At(d, ns, x)
    {
      if x.ino == ino { BareInode(e, ms[ino].addrs, x.path); } else { assert At(e, ms, x) == At(e, hs, x); }
    }
    forall b: nat | b < sb.size
      ensures Marked(sb, e, b) <==> Marked(sb, d, b) && (b < sb.data || !OwnedBy(d, ns, ino, b))
    {
      FreedExactly(sb, d, ns, e, ms, ino, b);
    }
  }

  /** `min(left, BSIZE - o%BSIZE)`. */
  function ChunkLen(o: nat, left: nat): (m: nat)
    requires left > 0
    ensures 0 < m <= left && o % BSIZE + m <= BSIZE
  {
    if left < BSIZE - o % BSIZE then left else BSIZE - o % BSIZE
  }

  /** A stretch of one block of a file, after what was read before it. */
  lemma ReadPiece(d: seq<Block>, ns: seq<Inode>, ino: nat, off: nat, tot: nat, b: nat, k: nat)
    requires NoHoles(d, ns) && ino < |ns| && off + tot + k <= ns[ino].size && (off + tot) % BSIZE + k <= BSIZE
    requires (off + tot) / BSIZE < MAXFILE && b == BlockOf(d, ns, ino, (off + tot) / BSIZE) && b < |d|
    ensures Content(d, ns, ino)[off..off + tot] + d[b][(off + tot) % BSIZE..(off + tot) % BSIZE + k]
            == Content(d, ns, ino)[off..off + tot + k]
  {
    var c, o := Content(d, ns, ino), off + tot;
    var l, r := c[o..o + k], d[b][o % BSIZE..o % BSIZE + k];
    forall y | 0 <= y < k ensures l[y] == r[y] {
      InFile(d, ns, ino, o + y);
      SameBlock(o, y);
    }
    assert l == r;
  }

  /** bmap and the memmove that follows it fill exactly what was missing on the way to file block bn. */
  lemma PatchFilled(sb: Super, d: seq<Block>, ns: seq<Inode>, e: seq<Block>, ms: seq<Inode>, ino: nat, bn: nat, data: Block)
    requires Owned(sb, e, ms, {}) && ino < |ns| && bn < MAXFILE && Grows(d, ns, e, ms, ino, PathOf(bn))
    requires sb.data <= BlockOf(e, ms, ino, bn) < sb.size
    ensures var f := e[BlockOf(e, ms, ino, bn) := data];
            FilledTo(d, ns[ino].addrs, f, ms[ino].addrs, PathOf(bn)) && FreeBlocks(sb, f) == FreeBlocks(sb, e)
  {
    var b := BlockOf(e, ms, ino, bn);
    var f := e[b := data];
    GrownFilled(d, ns, e, ms, ino, PathOf(bn));
    DataFree(sb, e, b, data);
    DataWritten(sb, e, ms, Pos(ino, PathOf(bn)), data);
    forall q | Good(q)
      ensures Slot(f, ms[ino].addrs, q) == Slot(e, ms[ino].addrs, q)
    {
      assert At(f, ms, Pos(ino, q)) == At(e, ms, Pos(ino, q));
    }
  }

  /** There are fewer free blocks than the file blocks of bytes [off, off + len) lack. */
  ghost predicate Lacks(sb: Super, d: seq<Block>, ns: seq<Inode>, ino: nat, off: nat, len: nat) {
    && ino < |ns| && |ns[ino].addrs| == NADDR && EndBlock(off, len) <= MAXFILE
    && FreeBlocks(sb, d) < Lacking(d, ns[ino].addrs, off / BSIZE, EndBlock(off, len))
  }

  /** The file block that writei's loop comes to next, after tot of len bytes. */
  function NextBlock(off: nat, tot: nat, len: nat): (n: nat) {
    if tot < len then (off + tot) / BSIZE else EndBlock(off, len)
  }

  /** A chunk ends where its block does, or with the bytes to write. */
  lemma ChunkEnds(off: nat, tot: nat, len: nat)
    requires tot < len && off + len <= LIMIT
    ensures var o, t := off + tot, tot + ChunkLen(off + tot, len - tot);
            && off / BSIZE <= o / BSIZE < EndBlock(off, len) <= MAXFILE
            && NextBlock(off, tot, len) == o / BSIZE && NextBlock(off, t, len) == o / BSIZE + 1
  {
  }

  /** How one round of writei's loop bears on the blocks that the write lacks. */
  lemma ChunkTaken(sb: Super, d: seq<Block>, a: seq<nat>, e: seq<Block>, b: seq<nat>, f: seq<Block>, c: seq<nat>,
                   off: nat, tot: nat, o: nat, t: nat, len: nat)
    requires tot < len && off + len <= LIMIT && o == off + tot && t == tot + ChunkLen(o, len - tot) && o / BSIZE < MAXFILE
    requires Spent(sb, d, a, e, b, off / BSIZE, NextBlock(off, tot, len)) && FilledTo(e, b, f, c, PathOf(o / BSIZE))
    requires FreeBlocks(sb, e) == FreeBlocks(sb, f) + Gaps(e, b, PathOf(o / BSIZE))
    ensures Spent(sb, d, a, f, c, off / BSIZE, NextBlock(off, t, len))
  {
    var lo, n, m, k := off / BSIZE, o / BSIZE, NextBlock(off, tot, len), NextBlock(off, t, len);
    assert m == n && k == n + 1 by { ChunkEnds(off, tot, len); }
    SpentNext(sb, d, a, e, b, f, c, lo, m, n, k);
  }

  lemma ChunkDone(sb: Super, d: seq<Block>, ns: seq<Inode>, e: seq<Block>, ms: seq<Inode>, f: seq<Block>, ls: seq<Inode>,
                  ino: nat, off: nat, src: seq<Byte>, tot: nat, t: nat, o: nat, piece: seq<Byte>)
    requires Writing(d, ns, e, ms, ino, off, src, tot) && tot < |src| && off + |src| <= LIMIT && o == off + tot
    requires t == tot + ChunkLen(o, |src| - tot) && piece == src[tot..t] && o / BSIZE < MAXFILE
    requires Wrote(e, ms, f, ls, ino, o, piece) && (forall i | 0 <= i < |ns| && i != ino :: ls[i] == ms[i])
    requires off + |src| <= ns[ino].size ==> ls == ms
    requires Spent(sb, d, ns[ino].addrs, e, ms[ino].addrs, off / BSIZE, NextBlock(off, tot, |src|))
    requires FilledTo(e, ms[ino].addrs, f, ls[ino].addrs, PathOf(o / BSIZE))
    requires FreeBlocks(sb, e) == FreeBlocks(sb, f) + Gaps(e, ms[ino].addrs, PathOf(o / BSIZE))
    ensures Writing(d, ns, f, ls, ino, off, src, t)
    ensures Spent(sb, d, ns[ino].addrs, f, ls[ino].addrs, off / BSIZE, NextBlock(off, t, |src|))
  {
    ChunkTaken(sb, d, ns[ino].addrs, e, ms[ino].addrs, f, ls[ino].addrs, off, tot, o, t, |src|);
    WritingNext(d, ns, e, ms, f, ls, ino, off, src, tot, t, o, piece);
  }

  lemma ChunkShort(sb: Super, d: seq<Block>, ns: seq<Inode>, e: seq<Block>, b: seq<nat>, ino: nat,
                   off: nat, tot: nat, o: nat, len: nat)
    requires tot < len && off + len <= LIMIT && ino < |ns| && o == off + tot && o / BSIZE < MAXFILE
    requires Spent(sb, d, ns[ino].addrs, e, b, off / BSIZE, NextBlock(off, tot, len))
    requires FreeBlocks(sb, e) < Gaps(e, b, PathOf(o / BSIZE))
    ensures Lacks(sb, d, ns, ino, off, len)
  {
    var lo, n, m, hi := off / BSIZE, o / BSIZE, NextBlock(off, tot, len), EndBlock(off, len);
    assert m == n < hi <= MAXFILE by { ChunkEnds(off, tot, len); }
    SpentShort(sb, d, ns[ino].addrs, e, b, lo, n, hi);
  }

  lemma StillMapped(d: seq<Block>, ns: seq<Inode>, e: seq<Block>, ms: seq<Inode>, ino: nat, off: nat, src: seq<Byte>, tot: nat)
    requires NoHoles(d, ns) && Writing(d, ns, e, ms, ino, off, src, tot) && off + tot < ns[ino].size
    ensures Mapped(e, ms, ino, (off + tot) / BSIZE)
  {
    InFile(d, ns, ino, off + tot);
  }

  /** writei's refusals: a start past the end, a 32-bit overflow, or a file grown too big. */
  predicate Refused(size: nat, off: nat, n: nat) { off > size || off + n >= UINT || off + n > LIMIT }

  /** The first tot bytes of src are written; an overwrite inside the file has not touched the inode. */
  ghost predicate Writing(d: seq<Block>, ns: seq<Inode>, e: seq<Block>, ms: seq<Inode>, ino: nat, off: nat,
                          src: seq<Byte>, tot: nat)
  {
    && tot <= |src| && Wrote(d, ns, e, ms, ino, off, src[..tot]) && ino < |ns|
    && (forall i | 0 <= i < |ns| && i != ino :: ms[i] == ns[i])
    && (off + |src| <= ns[ino].size ==> ms == ns)
  }

  lemma WritingNext(d: seq<Block>, ns: seq<Inode>, e: seq<Block>, ms: seq<Inode>, f: seq<Block>, ls: seq<Inode>,
                    ino: nat, off: nat, src: seq<Byte>, tot: nat, tot': nat, o: nat, piece: seq<Byte>)
    requires Writing(d, ns, e, ms, ino, off, src, tot) && tot < tot' <= |src| && o == off + tot && piece == src[tot..tot']
    requires Wrote(e, ms, f, ls, ino, o, piece)
    requires forall i | 0 <= i < |ns| && i != ino :: ls[i] == ms[i]
    requires off + |src| <= ns[ino].size ==> ls == ms
    ensures Writing(d, ns, f, ls, ino, off, src, tot')
  {
    WroteTrans(d, ns, e, ms, f, ls, ino, off, src[..tot], src[tot..tot']);
    assert src[..tot] + src[tot..tot'] == src[..tot'];
  }

  /** What writei's loop leaves, with the size it then sets. */
  lemma WriteDone(sb: Super, d: seq<Block>, ns: seq<Inode>, e: seq<Block>, ms: seq<Inode>, ino: nat, off: nat, src: seq<Byte>)
    requires NoHoles(d, ns) && Owned(sb, e, ms, {}) && Writing(d, ns, e, ms, ino, off, src, |src|)
    requires off <= ns[ino].size && off + |src| <= LIMIT
    ensures var size := if off + |src| > ns[ino].size then off + |src| else ns[ino].size;
            var ls := ms[ino := ms[ino].(size := size)];
            Owned(sb, e, ls, {}) && NoHoles(e, ls)
            && Content(e, ls, ino) == Splice(Content(d, ns, ino), off, src)
            && forall j: nat | j < |ns| && j != ino :: Content(e, ls, j) == Content(d, ns, j)
  {
    var size := if off + |src| > ns[ino].size then off + |src| else ns[ino].size;
    var ls := ms[ino := ms[ino].(size := size)];
    assert src[..|src|] == src;
    WroteContent(d, ns, e, ms, ls, ino, off, src);
    SizeOnly(sb, e, ms, ls, ino);
  }

  /** One more writei of filewrite, of n1 bytes at o. */
  lemma RoundPaid(sb: Super, d: seq<Block>, a: seq<nat>, e: seq<Block>, b: seq<nat>, f: seq<Block>, c: seq<nat>,
                  off: nat, i: nat, o: nat, n1: nat)
    requires n1 > 0 && o == off + i && Spent(sb, d, a, e, b, off / BSIZE, EndBlock(off, i))
    requires Spent(sb, e, b, f, c, o / BSIZE, EndBlock(o, n1))
    ensures Spent(sb, d, a, f, c, off / BSIZE, EndBlock(off, i + n1))
  {
    var lo, mid, x, hi := off / BSIZE, EndBlock(off, i), o / BSIZE, EndBlock(off, i + n1);
    assert lo <= x <= mid <= hi == EndBlock(o, n1) by { EndBlockNext(off, i, n1); }
    SpentJoin(sb, d, a, e, b, f, c, lo, mid, x, hi);
  }

  /** The bytes that filewrite writes while blocks last: all of them, or the whole chunks that stay
      within the largest file. */
  function Accepted(size: nat, off: nat, len: nat): (n: nat) {
    if off > size || off > LIMIT then 0 else if off + len <= LIMIT then len else (LIMIT - off) / MAXCHUNK * MAXCHUNK
  }

  /** `n1 = n - i; if(n1 > max) n1 = max;` */
  function ChunkSize(i: nat, len: nat): (n: nat)
    requires i <= len
    ensures i < len ==> 0 < n <= len - i
  {
    if len - i > MAXCHUNK then MAXCHUNK else len - i
  }

  /** Whole chunks were written, or all of len. */
  predicate AtChunk(i: nat, len: nat) { i % MAXCHUNK == 0 || i == len }

  lemma NextChunk(i: nat, len: nat)
    requires i < len && AtChunk(i, len)
    ensures AtChunk(i + ChunkSize(i, len), len)
  {
  }

  lemma AcceptedRound(size: nat, off: nat, i: nat, len: nat)
    requires off <= size && off <= LIMIT && i < len && AtChunk(i, len)
    ensures i + ChunkSize(i, len) <= Accepted(size, off, len) <==> off + i + ChunkSize(i, len) <= LIMIT
    ensures off + i + ChunkSize(i, len) > LIMIT && off + i <= LIMIT ==> i == Accepted(size, off, len)
  {
    if off + len > LIMIT {
      Quotient(LIMIT - off, i);
      if ChunkSize(i, len) == MAXCHUNK { Quotient(LIMIT - off, i + MAXCHUNK); }
    }
  }

  lemma Quotient(a: nat, i: nat)
    requires i % MAXCHUNK == 0
    ensures i <= a <==> i <= a / MAXCHUNK * MAXCHUNK
  {
    var k, q := i / MAXCHUNK, a / MAXCHUNK;
    assert i == k * MAXCHUNK;
    assert q * MAXCHUNK <= a < (q + 1) * MAXCHUNK;
  }

  lemma NothingPaid(sb: Super, d: seq<Block>, ns: seq<Inode>, ino: nat, off: nat)
    requires NoHoles(d, ns) && ino < |ns|
    ensures off <= ns[ino].size ==> Spent(sb, d, ns[ino].addrs, d, ns[ino].addrs, off / BSIZE, EndBlock(off, 0))
  {
    SuppliedNothing(d, ns[ino].addrs, off / BSIZE);
  }

  lemma RoundDone(sb: Super, d: seq<Block>, ns: seq<Inode>, e: seq<Block>, ms: seq<Inode>, f: seq<Block>, ls: seq<Inode>,
                  ino: nat, off: nat, src: seq<Byte>, i: nat, n1: nat, o: nat, piece: seq<Byte>)
    requires Chunked(d, ns, e, ms, ino, off, src, i) && i < |src| && AtChunk(i, |src|) && n1 == ChunkSize(i, |src|)
    requires off <= ns[ino].size && o == off + i && piece == src[i..i + n1] && NoHoles(f, ls) && |ls| == |ms|
    requires Content(f, ls, ino) == Splice(Content(e, ms, ino), o, piece)
    requires forall j: nat | j < |ms| && j != ino :: Content(f, ls, j) == Content(e, ms, j)
    requires Spent(sb, d, ns[ino].addrs, e, ms[ino].addrs, off / BSIZE, EndBlock(off, i))
    requires Spent(sb, e, ms[ino].addrs, f, ls[ino].addrs, o / BSIZE, EndBlock(o, |piece|))
    ensures Chunked(d, ns, f, ls, ino, off, src, i + n1) && AtChunk(i + n1, |src|)
    ensures Spent(sb, d, ns[ino].addrs, f, ls[ino].addrs, off / BSIZE, EndBlock(off, i + n1))
  {
    assert AtChunk(i + n1, |src|) by { NextChunk(i, |src|); }
    assert |piece| == n1;
    RoundPaid(sb, d, ns[ino].addrs, e, ms[ino].addrs, f, ls[ino].addrs, off, i, o, n1);
    ChunkedNext(d, ns, e, ms, f, ls, ino, off, src, i, i + n1, o, piece);
  }

  /** A writei that fails for want of blocks fails the whole write. */
  lemma RoundShort(sb: Super, d: seq<Block>, ns: seq<Inode>, e: seq<Block>, ms: seq<Inode>, ino: nat,
                   off: nat, i: nat, o: nat, n1: nat, len: nat)
    requires i < len && n1 == ChunkSize(i, len) && AtChunk(i, len) && o == off + i && ino < |ns| == |ms|
    requires off <= ns[ino].size <= LIMIT && o + n1 <= LIMIT
    requires Spent(sb, d, ns[ino].addrs, e, ms[ino].addrs, off / BSIZE, EndBlock(off, i)) && Lacks(sb, e, ms, ino, o, n1)
    ensures Lacks(sb, d, ns, ino, off, Accepted(ns[ino].size, off, len))
  {
    assert i + n1 <= Accepted(ns[ino].size, off, len) by { AcceptedRound(ns[ino].size, off, i, len); }
    RoundLacks(sb, d, ns, e, ms, ino, off, i, o, n1);
    StillLacks(sb, d, ns, ino, off, i + n1, len);
  }

  lemma RoundLacks(sb: Super, d: seq<Block>, ns: seq<Inode>, e: seq<Block>, ms: seq<Inode>, ino: nat, off: nat, i: nat, o: nat, n1: nat)
    requires n1 > 0 && o == off + i && ino < |ns| == |ms|
    requires Spent(sb, d, ns[ino].addrs, e, ms[ino].addrs, off / BSIZE, EndBlock(off, i)) && Lacks(sb, e, ms, ino, o, n1)
    ensures Lacks(sb, d, ns, ino, off, i + n1)
  {
    var lo, mid, x, hi := off / BSIZE, EndBlock(off, i), o / BSIZE, EndBlock(off, i + n1);
    assert lo <= x <= mid <= hi == EndBlock(o, n1) by { EndBlockNext(off, i, n1); }
    LackingJoin(d, ns[ino].addrs, e, ms[ino].addrs, lo, mid, x, hi);
  }

  lemma StillLacks(sb: Super, d: seq<Block>, ns: seq<Inode>, ino: nat, off: nat, n: nat, len: nat)
    requires Lacks(sb, d, ns, ino, off, n) && n <= Accepted(ns[ino].size, off, len)
    ensures Lacks(sb, d, ns, ino, off, Accepted(ns[ino].size, off, len))
  {
    var m := Accepted(ns[ino].size, off, len);
    assert off + m <= LIMIT || m == 0;
    assert off / BSIZE <= EndBlock(off, n) <= EndBlock(off, m);
    LackingGrows(d, ns[ino].addrs, off / BSIZE, EndBlock(off, n), EndBlock(off, m));
  }

  /** A filewrite that ends has written what can be accepted, and there were blocks enough for it. */
  lemma WroteAccepted(sb: Super, d: seq<Block>, ns: seq<Inode>, e: seq<Block>, ms: seq<Inode>, ino: nat, off: nat, i: nat, len: nat)
    requires ino < |ns| == |ms| && i <= len && AtChunk(i, len) && ns[ino].size <= LIMIT
    requires i > 0 ==> off <= ns[ino].size && off + i <= LIMIT
    requires off <= ns[ino].size ==> off + i <= ms[ino].size
    requires off <= ns[ino].size ==> Spent(sb, d, ns[ino].addrs, e, ms[ino].addrs, off / BSIZE, EndBlock(off, i))
    requires i < len ==> Refused(ms[ino].size, off + i, ChunkSize(i, len))
    ensures i == Accepted(ns[ino].size, off, len) && !Lacks(sb, d, ns, ino, off, i)
  {
    if i < len && off <= ns[ino].size { AcceptedRound(ns[ino].size, off, i, len); }
  }

  /** A write of n bytes at off that filewrite completes. */
  predicate Fits(size: nat, off: nat, n: nat) { n == 0 || (off <= size && off + n <= LIMIT) }

  lemma SpliceNothing(d: seq<Block>, ns: seq<Inode>, ino: nat, off: nat)
    requires NoHoles(d, ns) && ino < |ns|
    ensures off <= ns[ino].size ==> Splice(Content(d, ns, ino), off, []) == Content(d, ns, ino)
  {
    var c := Content(d, ns, ino);
    if off <= ns[ino].size { assert c[..off] + [] + c[off..] == c; }
  }

  lemma SpliceTwice(c: seq<Byte>, off: nat, s: seq<Byte>, t: seq<Byte>)
    requires off <= |c|
    ensures off + |s| <= |Splice(c, off, s)|
    ensures Splice(Splice(c, off, s), off + |s|, t) == Splice(c, off, s + t)
  {
  }

  /** The first i bytes of src have been written to the file at off, by whole chunks. */
  ghost predicate Chunked(d: seq<Block>, ns: seq<Inode>, e: seq<Block>, ms: seq<Inode>, ino: nat, off: nat, src: seq<Byte>, i: nat) {
    && NoHoles(d, ns) && NoHoles(e, ms) && ino < |ns| == |ms| && i <= |src|
    && (off <= ns[ino].size ==> off + i <= ms[ino].size && Content(e, ms, ino) == Splice(Content(d, ns, ino), off, src[..i]))
    && (off > ns[ino].size ==> ms[ino].size == ns[ino].size && Content(e, ms, ino) == Content(d, ns, ino))
    && (forall j: nat | j < |ns| && j != ino :: Content(e, ms, j) == Content(d, ns, j))
  }

  lemma ChunkedNext(d: seq<Block>, ns: seq<Inode>, e: seq<Block>, ms: seq<Inode>, f: seq<Block>, ls: seq<Inode>,
                    ino: nat, off: nat, src: seq<Byte>, i: nat, k: nat, o: nat, piece: seq<Byte>)
    requires Chunked(d, ns, e, ms, ino, off, src, i) && i < k <= |src| && off <= ns[ino].size && o == off + i && piece == src[i..k]
    requires NoHoles(f, ls) && |ls| == |ms| && Content(f, ls, ino) == Splice(Content(e, ms, ino), o, piece)
    requires forall j: nat | j < |ms| && j != ino :: Content(f, ls, j) == Content(e, ms, j)
    ensures Chunked(d, ns, f, ls, ino, off, src, k)
  {
    SpliceTwice(Content(d, ns, ino), off, src[..i], src[i..k]);
    assert src[..i] + src[i..k] == src[..k];
  }
}
