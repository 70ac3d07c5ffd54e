/** How many blocks are free, and how many a file lacks. */
module BlockNeed {
  import opened Blocks
  import opened FsTree

  // ---- free blocks ----

  ghost function FreeBelow(sb: Super, d: seq<Block>, n: nat): (k: nat)
    requires GoodSuper(sb, d) && n <= sb.size
  {
    if n == 0 then 0 else FreeBelow(sb, d, n - 1) + if Marked(sb, d, n - 1) then 0 else 1
  }

  /** The number of blocks whose bit is clear. */
  ghost function FreeBlocks(sb: Super, d: seq<Block>): (k: nat) {
    if GoodSuper(sb, d) then FreeBelow(sb, d, sb.size) else 0
  }

  lemma {:induction false} FreeBelowTaken(sb: Super, d: seq<Block>, e: seq<Block>, b: nat, n: nat)
    requires GoodSuper(sb, d) && GoodSuper(sb, e) && b < sb.size && n <= sb.size && !Marked(sb, d, b)
    requires forall y: nat | y < sb.size :: Marked(sb, e, y) == (y == b || Marked(sb, d, y))
    ensures FreeBelow(sb, d, n) == FreeBelow(sb, e, n) + if b < n then 1 else 0
  {
    if n > 0 { FreeBelowTaken(sb, d, e, b, n - 1); }
  }

  lemma FreeTaken(sb: Super, d: seq<Block>, e: seq<Block>, b: nat)
    requires GoodSuper(sb, d) && GoodSuper(sb, e) && b < sb.size && !Marked(sb, d, b)
    requires forall y: nat | y < sb.size :: Marked(sb, e, y) == (y == b || Marked(sb, d, y))
    ensures FreeBlocks(sb, d) == FreeBlocks(sb, e) + 1
  {
    FreeBelowTaken(sb, d, e, b, sb.size);
  }

  lemma {:induction false} FreeBelowSame(sb: Super, d: seq<Block>, e: seq<Block>, n: nat)
    requires GoodSuper(sb, d) && GoodSuper(sb, e) && n <= sb.size
    requires forall y: nat | y < sb.size :: Marked(sb, e, y) == Marked(sb, d, y)
    ensures FreeBelow(sb, d, n) == FreeBelow(sb, e, n)
  {
    if n > 0 { FreeBelowSame(sb, d, e, n - 1); }
  }

  lemma FreeSame(sb: Super, d: seq<Block>, e: seq<Block>)
    requires GoodSuper(sb, d) && GoodSuper(sb, e)
    requires forall y: nat | y < sb.size :: Marked(sb, e, y) == Marked(sb, d, y)
    ensures FreeBlocks(sb, d) == FreeBlocks(sb, e)
  {
    FreeBelowSame(sb, d, e, sb.size);
  }

  lemma {:induction false} FreeBelowNone(sb: Super, d: seq<Block>, n: nat)
    requires GoodSuper(sb, d) && n <= sb.size && forall y: nat | y < n :: Marked(sb, d, y)
    ensures FreeBelow(sb, d, n) == 0
  {
    if n > 0 { FreeBelowNone(sb, d, n - 1); }
  }

  // ---- blocks that a file lacks ----

  /** How many positions on the way to p hold no block. */
  ghost function Gaps(d: seq<Block>, a: seq<nat>, p: Path): (n: nat)
    requires |a| == NADDR && Good(p)
  {
    (if Slot(d, a, p) == 0 then 1 else 0) + match p case Top(_) => 0 case Sub(q, _) => Gaps(d, a, q)
  }

  /** Where a block is, all is in place on the way to it. */
  lemma {:induction false} NoGaps(d: seq<Block>, a: seq<nat>, p: Path)
    requires |a| == NADDR && Good(p) && Slot(d, a, p) != 0
    ensures Gaps(d, a, p) == 0
  {
    match p
    case Top(_) =>
    case Sub(q, _) => NoGaps(d, a, q);
  }

  /** p is on the way to one of the file blocks [lo, hi). */
  ghost predicate Reached(p: Path, lo: nat, hi: nat) {
    exists n: nat | lo <= n < hi && n < MAXFILE :: OnWay(p, PathOf(n))
  }

  /** How many positions on the way to p hold no block and are on the way to none of [lo, hi). */
  ghost function NewGaps(d: seq<Block>, a: seq<nat>, p: Path, lo: nat, hi: nat): (n: nat)
    requires |a| == NADDR && Good(p)
    decreases p
  {
    (if Slot(d, a, p) == 0 && !Reached(p, lo, hi) then 1 else 0)
    + match p case Top(_) => 0 case Sub(q, _) => NewGaps(d, a, q, lo, hi)
  }

  /** The blocks, of data and indexes, that file blocks [lo, hi) lack. */
  ghost function Lacking(d: seq<Block>, a: seq<nat>, lo: nat, hi: nat): (n: nat)
    requires |a| == NADDR && hi <= MAXFILE
  {
    if hi <= lo then 0 else Lacking(d, a, lo, hi - 1) + NewGaps(d, a, PathOf(hi - 1), lo, hi - 1)
  }

  /** From (d, a) to (e, b) exactly the positions on the way to file blocks [lo, hi) were filled. */
  ghost predicate Supplied(d: seq<Block>, a: seq<nat>, e: seq<Block>, b: seq<nat>, lo: nat, hi: nat) {
    && |a| == NADDR && |b| == NADDR
    && forall p | Good(p) :: Slot(e, b, p) == 0 <==> Slot(d, a, p) == 0 && !Reached(p, lo, hi)
  }

  lemma SuppliedNothing(d: seq<Block>, a: seq<nat>, lo: nat)
    requires |a| == NADDR
    ensures Supplied(d, a, d, a, lo, lo)
  {
  }

  /** What the next file block lacks then is what it lacked and the others did not supply. */
  lemma {:induction false} GapsLeft(d: seq<Block>, a: seq<nat>, e: seq<Block>, b: seq<nat>, lo: nat, hi: nat, p: Path)
    requires Supplied(d, a, e, b, lo, hi) && Good(p)
    ensures Gaps(e, b, p) == NewGaps(d, a, p, lo, hi)
    decreases p
  {
    match p
    case Top(_) =>
    case Sub(q, _) => GapsLeft(d, a, e, b, lo, hi, q);
  }

  lemma ReachedNext(p: Path, lo: nat, n: nat)
    requires lo <= n < MAXFILE
    ensures Reached(p, lo, n + 1) <==> Reached(p, lo, n) || OnWay(p, PathOf(n))
  {
  }

  /** One more file block was mapped. */
  lemma SuppliedNext(d: seq<Block>, a: seq<nat>, e: seq<Block>, b: seq<nat>, f: seq<Block>, c: seq<nat>, lo: nat, n: nat)
    requires lo <= n < MAXFILE && Supplied(d, a, e, b, lo, n) && |c| == NADDR
    requires forall p | Good(p) :: Slot(f, c, p) == 0 <==> Slot(e, b, p) == 0 && !OnWay(p, PathOf(n))
    ensures Supplied(d, a, f, c, lo, n + 1)
  {
    forall p | Good(p)
      ensures Slot(f, c, p) == 0 <==> Slot(d, a, p) == 0 && !Reached(p, lo, n + 1)
    {
      ReachedNext(p, lo, n);
    }
  }

  // ---- the price of a write ----

  /** From (d, a) to (e, b) exactly the positions on the way to p were filled. */
  ghost predicate FilledTo(d: seq<Block>, a: seq<nat>, e: seq<Block>, b: seq<nat>, p: Path) {
    && |a| == NADDR && |b| == NADDR
    && forall q | Good(q) :: Slot(e, b, q) == 0 <==> Slot(d, a, q) == 0 && !OnWay(q, p)
  }

  lemma {:induction false} WayFilled(d: seq<Block>, a: seq<nat>, q: Path, p: Path)
    requires |a| == NADDR && Good(p) && Good(q) && Slot(d, a, p) != 0 && OnWay(q, p)
    ensures Slot(d, a, q) != 0
    decreases p
  {
    if q != p { WayFilled(d, a, q, p.parent); }
  }

  lemma GrownFilled(d: seq<Block>, ns: seq<Inode>, e: seq<Block>, ms: seq<Inode>, ino: nat, p: Path)
    requires Grows(d, ns, e, ms, ino, p) && ino < |ns| && Good(p) && At(e, ms, Pos(ino, p)) != 0
    ensures FilledTo(d, ns[ino].addrs, e, ms[ino].addrs, p)
  {
    forall q | Good(q)
      ensures Slot(e, ms[ino].addrs, q) == 0 <==> Slot(d, ns[ino].addrs, q) == 0 && !OnWay(q, p)
    {
      assert Valid(ns, Pos(ino, q)) && At(d, ns, Pos(ino, q)) == Slot(d, ns[ino].addrs, q);
      if OnWay(q, p) { WayFilled(e, ms[ino].addrs, q, p); }
    }
  }

  /** File blocks [lo, hi) were mapped, and took exactly the blocks that they lacked. */
  ghost predicate Spent(sb: Super, d: seq<Block>, a: seq<nat>, e: seq<Block>, b: seq<nat>, lo: nat, hi: nat) {
    && lo <= hi <= MAXFILE && Supplied(d, a, e, b, lo, hi)
    && FreeBlocks(sb, d) == FreeBlocks(sb, e) + Lacking(d, a, lo, hi)
  }

  lemma SpentNext(sb: Super, d: seq<Block>, a: seq<nat>, e: seq<Block>, b: seq<nat>, f: seq<Block>, c: seq<nat>,
                  lo: nat, m: nat, n: nat, k: nat)
    requires Spent(sb, d, a, e, b, lo, m) && m == n < MAXFILE && k == n + 1 && FilledTo(e, b, f, c, PathOf(n))
    requires FreeBlocks(sb, e) == FreeBlocks(sb, f) + Gaps(e, b, PathOf(n))
    ensures Spent(sb, d, a, f, c, lo, k)
  {
    GapsLeft(d, a, e, b, lo, n, PathOf(n));
    SuppliedNext(d, a, e, b, f, c, lo, n);
  }

  lemma SpentShort(sb: Super, d: seq<Block>, a: seq<nat>, e: seq<Block>, b: seq<nat>, lo: nat, n: nat, hi: nat)
    requires Spent(sb, d, a, e, b, lo, n) && n < hi <= MAXFILE && FreeBlocks(sb, e) < Gaps(e, b, PathOf(n))
    ensures FreeBlocks(sb, d) < Lacking(d, a, lo, hi)
  {
    GapsLeft(d, a, e, b, lo, n, PathOf(n));
    LackingGrows(d, a, lo, n + 1, hi);
  }

  lemma {:induction false} LackingGrows(d: seq<Block>, a: seq<nat>, lo: nat, n: nat, hi: nat)
    requires |a| == NADDR && lo <= n <= hi <= MAXFILE
    ensures Lacking(d, a, lo, n) <= Lacking(d, a, lo, hi)
    decreases hi
  {
    if n < hi { LackingGrows(d, a, lo, n, hi - 1); }
  }

  lemma ReachedJoin(p: Path, lo: nat, mid: nat, x: nat, hi: nat)
    requires lo <= x <= mid && x <= hi
    ensures Reached(p, lo, mid) || Reached(p, x, hi) <==> Reached(p, lo, if mid < hi then hi else mid)
  {
  }

  lemma {:induction false} NewGapsJoin(d: seq<Block>, a: seq<nat>, e: seq<Block>, b: seq<nat>, p: Path, lo: nat, mid: nat, x: nat, hi: nat)
    requires Supplied(d, a, e, b, lo, mid) && Good(p) && lo <= x <= mid <= hi
    ensures NewGaps(e, b, p, x, hi) == NewGaps(d, a, p, lo, hi)
    decreases p
  {
    ReachedJoin(p, lo, mid, x, hi);
    match p
    case Top(_) =>
    case Sub(q, _) => NewGapsJoin(d, a, e, b, q, lo, mid, x, hi);
  }

  /** File blocks that were mapped lack nothing. */
  lemma {:induction false} NothingLacking(d: seq<Block>, a: seq<nat>, e: seq<Block>, b: seq<nat>, lo: nat, mid: nat, x: nat, hi: nat)
    requires Supplied(d, a, e, b, lo, mid) && lo <= x && hi <= mid <= MAXFILE
    ensures Lacking(e, b, x, hi) == 0
    decreases hi
  {
    if x < hi {
      NothingLacking(d, a, e, b, lo, mid, x, hi - 1);
      assert OnWay(PathOf(hi - 1), PathOf(hi - 1));
      assert Slot(e, b, PathOf(hi - 1)) != 0;
      NoGaps(e, b, PathOf(hi - 1));
      NewGapsFew(e, b, PathOf(hi - 1), x, hi - 1);
    }
  }

  lemma {:induction false} NewGapsFew(d: seq<Block>, a: seq<nat>, p: Path, lo: nat, hi: nat)
    requires |a| == NADDR && Good(p)
    ensures NewGaps(d, a, p, lo, hi) <= Gaps(d, a, p)
    decreases p
  {
    match p
    case Top(_) =>
    case Sub(q, _) => NewGapsFew(d, a, q, lo, hi);
  }

  lemma LackingNext(d: seq<Block>, a: seq<nat>, e: seq<Block>, b: seq<nat>, lo: nat, mid: nat, x: nat, n: nat)
    requires Supplied(d, a, e, b, lo, mid) && lo <= x <= mid <= n < MAXFILE
    ensures Lacking(d, a, lo, n + 1) - Lacking(d, a, lo, n) == Lacking(e, b, x, n + 1) - Lacking(e, b, x, n)
  {
    NewGapsJoin(d, a, e, b, PathOf(n), lo, mid, x, n);
  }

  /** What file blocks [lo, hi) lack is what a first part of them lacks and then the rest. */
  lemma {:induction false} LackingJoin(d: seq<Block>, a: seq<nat>, e: seq<Block>, b: seq<nat>, lo: nat, mid: nat, x: nat, hi: nat)
    requires Supplied(d, a, e, b, lo, mid) && lo <= x <= mid <= hi <= MAXFILE
    ensures Lacking(d, a, lo, hi) == Lacking(d, a, lo, mid) + Lacking(e, b, x, hi)
    decreases hi
  {
    if hi == mid {
      NothingLacking(d, a, e, b, lo, mid, x, hi);
    } else {
      LackingJoin(d, a, e, b, lo, mid, x, hi - 1);
      LackingNext(d, a, e, b, lo, mid, x, hi - 1);
    }
  }

  lemma SpentJoin(sb: Super, d: seq<Block>, a: seq<nat>, e: seq<Block>, b: seq<nat>, f: seq<Block>, c: seq<nat>,
                  lo: nat, mid: nat, x: nat, hi: nat)
    requires Spent(sb, d, a, e, b, lo, mid) && Spent(sb, e, b, f, c, x, hi) && lo <= x <= mid <= hi
    ensures Spent(sb, d, a, f, c, lo, hi)
  {
    LackingJoin(d, a, e, b, lo, mid, x, hi);
    forall p | Good(p)
      ensures Slot(f, c, p) == 0 <==> Slot(d, a, p) == 0 && !Reached(p, lo, hi)
    {
      ReachedJoin(p, lo, mid, x, hi);
    }
  }

  /** The file block after the last one that holds a byte of [off, off + n). */
  function EndBlock(off: nat, n: nat): (b: nat) { if n == 0 then off / BSIZE else (off + n - 1) / BSIZE + 1 }

  lemma EndBlockNext(off: nat, i: nat, n: nat)
    requires n > 0
    ensures EndBlock(off + i, n) == EndBlock(off, i + n)
    ensures off / BSIZE <= (off + i) / BSIZE <= EndBlock(off, i) <= EndBlock(off, i + n)
  {
  }
}
