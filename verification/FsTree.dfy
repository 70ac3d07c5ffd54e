/** Inode block trees over a disk, and who owns each block.

    An inode has 10 direct addresses and the roots of a single, a double and a triple indirect
    tree. A position in such a tree is a path; the block number stored there is its slot.
 */
module FsTree {
  import opened Blocks
  import opened Bitmap

  const NDIRECT: nat := 10
  const NADDR: nat := 13
  const NINDIRECT: nat := 128
  const NDINDIRECT: nat := 16384
  const NTINDIRECT: nat := 2097152
  const MAXFILE: nat := 2113674

  /** Sizes and region bounds from the super block; blocks below `data` hold metadata. */
  datatype Super = Super(size: nat, bmapstart: nat, data: nat)

  datatype Inode = Inode(size: nat, addrs: seq<nat>)

  /** Address k of the inode, or entry i of the index block at a path. */
  datatype Path = Top(k: nat) | Sub(parent: Path, i: nat)

  datatype Pos = Pos(ino: nat, path: Path)

  function Root(p: Path): (k: nat) { match p case Top(k) => k case Sub(q, _) => Root(q) }

  function Level(p: Path): (n: nat) { match p case Top(_) => 0 case Sub(q, _) => 1 + Level(q) }

  /** How many index blocks lie between address k and the data it leads to. */
  function Height(k: nat): (h: nat) { if k < NDIRECT then 0 else k - NDIRECT + 1 }

  /** The block at p is an index block. */
  predicate Interior(p: Path) { Level(p) < Height(Root(p)) }

  predicate Good(p: Path) {
    match p
    case Top(k) => k < NADDR
    case Sub(q, i) => Good(q) && Interior(q) && i < NINDIRECT
  }

  /** The block number stored at p, 0 if none. */
  function Slot(d: seq<Block>, a: seq<nat>, p: Path): (b: nat)
    requires |a| == NADDR && Good(p)
  {
    match p
    case Top(k) => a[k]
    case Sub(q, i) =>
      var v := Slot(d, a, q);
      if v == 0 || v >= |d| then 0 else Word(d[v], i)
  }

  predicate Inodes(ns: seq<Inode>) { forall i | 0 <= i < |ns| :: |ns[i].addrs| == NADDR }

  predicate Valid(ns: seq<Inode>, x: Pos) { x.ino < |ns| && Good(x.path) }

  function At(d: seq<Block>, ns: seq<Inode>, x: Pos): (b: nat)
    requires Inodes(ns) && Valid(ns, x)
  {
    Slot(d, ns[x.ino].addrs, x.path)
  }

  predicate GoodSuper(sb: Super, d: seq<Block>) {
    && sb.size == |d| <= UINT
    && 0 < sb.bmapstart && sb.bmapstart + (sb.size - 1) / BPB < sb.data <= sb.size
  }

  predicate Marked(sb: Super, d: seq<Block>, b: nat)
    requires GoodSuper(sb, d) && b < sb.size
  {
    BitOf(d[sb.bmapstart + b / BPB], b % BPB)
  }

  // ---- ownership ----

  /** Whatever a slot holds is an allocated data-region block. */
  ghost predicate SlotsMarked(sb: Super, d: seq<Block>, ns: seq<Inode>)
    requires GoodSuper(sb, d) && Inodes(ns)
  {
    forall x | Valid(ns, x) && At(d, ns, x) != 0 :: sb.data <= At(d, ns, x) < sb.size && Marked(sb, d, At(d, ns, x))
  }

  /** No block occurs twice. */
  ghost predicate SlotsDistinct(d: seq<Block>, ns: seq<Inode>)
    requires Inodes(ns)
  {
    forall x, y | Valid(ns, x) && Valid(ns, y) && At(d, ns, x) != 0 && At(d, ns, x) == At(d, ns, y) :: x == y
  }

  ghost predicate IsOwned(d: seq<Block>, ns: seq<Inode>, b: nat)
    requires Inodes(ns)
  {
    exists x :: Valid(ns, x) && At(d, ns, x) == b
  }

  /** Metadata blocks are marked, and every marked data-region block occurs in some tree, except
      those in `loose`, just allocated and not yet stored anywhere. */
  ghost predicate MarksOwned(sb: Super, d: seq<Block>, ns: seq<Inode>, loose: set<nat>)
    requires GoodSuper(sb, d) && Inodes(ns)
  {
    && (forall b: nat | b < sb.data :: Marked(sb, d, b))
    && (forall b: nat | sb.data <= b < sb.size && Marked(sb, d, b) && b !in loose :: IsOwned(d, ns, b))
    && (forall b | b in loose :: sb.data <= b < sb.size && Marked(sb, d, b) && !IsOwned(d, ns, b))
  }

  ghost predicate Owned(sb: Super, d: seq<Block>, ns: seq<Inode>, loose: set<nat>) {
    GoodSuper(sb, d) && Inodes(ns) && SlotsMarked(sb, d, ns) && SlotsDistinct(d, ns) && MarksOwned(sb, d, ns, loose)
  }

  // ---- frames ----

  /** Slots depend only on the index blocks. */
  lemma {:induction false} SlotFrame(d: seq<Block>, e: seq<Block>, a: seq<nat>, p: Path)
    requires |a| == NADDR && Good(p) && |d| == |e|
    requires forall q | Good(q) && Interior(q) && 0 < Slot(d, a, q) < |d| :: e[Slot(d, a, q)] == d[Slot(d, a, q)]
    ensures Slot(e, a, p) == Slot(d, a, p)
  {
    match p
    case Top(k) =>
    case Sub(q, i) => SlotFrame(d, e, a, q);
  }

  lemma AtFrame(d: seq<Block>, e: seq<Block>, ns: seq<Inode>)
    requires Inodes(ns) && |d| == |e|
    requires forall x | Valid(ns, x) && Interior(x.path) && 0 < At(d, ns, x) < |d| :: e[At(d, ns, x)] == d[At(d, ns, x)]
    ensures forall x | Valid(ns, x) :: At(e, ns, x) == At(d, ns, x)
  {
    forall x | Valid(ns, x)
      ensures At(e, ns, x) == At(d, ns, x)
    {
      forall q | Good(q) && Interior(q) && 0 < Slot(d, ns[x.ino].addrs, q) < |d|
        ensures e[Slot(d, ns[x.ino].addrs, q)] == d[Slot(d, ns[x.ino].addrs, q)]
      {
        assert At(d, ns, Pos(x.ino, q)) == Slot(d, ns[x.ino].addrs, q);
      }
      SlotFrame(d, e, ns[x.ino].addrs, x.path);
    }
  }

  /** Ownership carries over when slots and marks do. */
  lemma OwnedFrame(sb: Super, d: seq<Block>, ns: seq<Inode>, e: seq<Block>, ms: seq<Inode>)
    requires Owned(sb, d, ns, {}) && GoodSuper(sb, e) && Inodes(ms) && |ms| == |ns|
    requires forall x | Valid(ns, x) :: At(e, ms, x) == At(d, ns, x)
    requires forall y: nat | y < sb.size :: Marked(sb, e, y) == Marked(sb, d, y)
    ensures Owned(sb, e, ms, {})
  {
    forall b: nat | IsOwned(d, ns, b)
      ensures IsOwned(e, ms, b)
    {
      var x :| Valid(ns, x) && At(d, ns, x) == b;
      assert At(e, ms, x) == b;
    }
  }

  // ---- the three changes a tree undergoes ----

  /** balloc: marking and zeroing a free block disturbs no tree. */
  lemma Allocated(sb: Super, d: seq<Block>, e: seq<Block>, ns: seq<Inode>, loose: set<nat>, b: nat)
    requires Owned(sb, d, ns, loose) && b < sb.size && !Marked(sb, d, b) && GoodSuper(sb, e)
    requires forall y: nat | sb.data <= y < sb.size && y != b :: e[y] == d[y]
    requires forall y: nat | y < sb.size :: Marked(sb, e, y) == (y == b || Marked(sb, d, y))
    ensures Owned(sb, e, ns, loose + {b}) && sb.data <= b
    ensures forall x | Valid(ns, x) :: At(e, ns, x) == At(d, ns, x)
  {
    AtFrame(d, e, ns);
    forall y: nat | sb.data <= y < sb.size && Marked(sb, e, y) && y !in loose + {b}
      ensures IsOwned(e, ns, y)
    {
      var x :| Valid(ns, x) && At(d, ns, x) == y;
      assert At(e, ns, x) == y;
    }
  }

  /** (e, ms) is (d, ns) with block number b stored at x. */
  ghost predicate Stored(d: seq<Block>, ns: seq<Inode>, e: seq<Block>, ms: seq<Inode>, x: Pos, b: nat)
    requires Inodes(ns) && Valid(ns, x) && b < UINT
  {
    match x.path
    case Top(k) => e == d && ms == ns[x.ino := ns[x.ino].(addrs := ns[x.ino].addrs[k := b])]
    case Sub(q, i) =>
      var v := At(d, ns, Pos(x.ino, q));
      0 < v < |d| && ms == ns && e == d[v := PutWord(d[v], i, b)]
  }

  /** Nothing hangs below x. */
  ghost predicate Childless(d: seq<Block>, ns: seq<Inode>, x: Pos)
    requires Inodes(ns) && Valid(ns, x)
  {
    forall i: nat | i < NINDIRECT && Interior(x.path) :: At(d, ns, Pos(x.ino, Sub(x.path, i))) == 0
  }

  /** Block b can be put at x: it holds no block numbers, or x is a data position. */
  ghost predicate Blank(d: seq<Block>, x: Pos, b: nat) {
    b != 0 && Interior(x.path) ==> b < |d| && forall i: nat | i < NINDIRECT :: Word(d[b], i) == 0
  }

  /** Storing at a childless position changes that slot and no other, anywhere. */
  lemma {:induction false} StoreAt(sb: Super, d: seq<Block>, ns: seq<Inode>, e: seq<Block>, ms: seq<Inode>,
                                   x: Pos, b: nat, y: Pos)
    requires GoodSuper(sb, d) && Inodes(ns) && SlotsMarked(sb, d, ns) && SlotsDistinct(d, ns)
    requires Valid(ns, x) && Valid(ns, y) && b < UINT && Stored(d, ns, e, ms, x, b)
    requires Childless(d, ns, x) && Blank(d, x, b) && (b == 0 || !IsOwned(d, ns, b))
    ensures Inodes(ms) && At(e, ms, y) == if y == x then b else At(d, ns, y)
    decreases y.path
  {
    match y.path
    case Top(k) =>
    case Sub(q, i) =>
      var z := Pos(y.ino, q);
      StoreAt(sb, d, ns, e, ms, x, b, z);
      if z != x {
        var w := At(d, ns, z);
        if w != 0 && x.path.Sub? && w == At(d, ns, Pos(x.ino, x.path.parent)) {
          assert z == Pos(x.ino, x.path.parent);
        }
      } else if b != 0 {
        assert x.path.Sub? ==> b != At(d, ns, Pos(x.ino, x.path.parent));
        assert Word(e[b], i) == Word(d[b], i) == 0;
      }
  }

  /** A freshly allocated block stored at an empty position: ownership is complete again. */
  lemma Linked(sb: Super, d: seq<Block>, ns: seq<Inode>, e: seq<Block>, ms: seq<Inode>, loose: set<nat>, x: Pos, b: nat)
    requires Owned(sb, d, ns, loose) && Valid(ns, x) && At(d, ns, x) == 0 && b in loose && Blank(d, x, b)
    requires Stored(d, ns, e, ms, x, b)
    ensures Owned(sb, e, ms, loose - {b})
    ensures forall y | Valid(ns, y) :: At(e, ms, y) == if y == x then b else At(d, ns, y)
  {
    forall y | Valid(ns, y)
      ensures Inodes(ms) && At(e, ms, y) == if y == x then b else At(d, ns, y)
    {
      StoreAt(sb, d, ns, e, ms, x, b, y);
    }
    Relinked(sb, d, ns, e, ms, x);
    LinkedMarks(sb, d, ns, e, ms, loose, x, b);
  }

  lemma LinkedMarks(sb: Super, d: seq<Block>, ns: seq<Inode>, e: seq<Block>, ms: seq<Inode>, loose: set<nat>, x: Pos, b: nat)
    requires GoodSuper(sb, d) && Inodes(ns) && MarksOwned(sb, d, ns, loose)
    requires GoodSuper(sb, e) && Inodes(ms) && |ms| == |ns|
    requires Valid(ns, x) && At(d, ns, x) == 0 && b in loose
    requires forall y | Valid(ns, y) :: At(e, ms, y) == if y == x then b else At(d, ns, y)
    requires forall y: nat | y < sb.size :: Marked(sb, e, y) == Marked(sb, d, y)
    ensures MarksOwned(sb, e, ms, loose - {b})
  {
    forall y: nat | sb.data <= y < sb.size && Marked(sb, e, y) && y !in loose - {b}
      ensures IsOwned(e, ms, y)
    {
      if y == b {
        assert At(e, ms, x) == b;
      } else {
        var z :| Valid(ns, z) && At(d, ns, z) == y;
        assert At(e, ms, z) == y;
      }
    }
    forall y | y in loose - {b}
      ensures !IsOwned(e, ms, y)
    {
      assert forall z | Valid(ms, z) :: At(e, ms, z) != y;
    }
  }

  /** Storing at a slot leaves the bitmap alone. */
  lemma Relinked(sb: Super, d: seq<Block>, ns: seq<Inode>, e: seq<Block>, ms: seq<Inode>, x: Pos)
    requires GoodSuper(sb, d) && Inodes(ns) && SlotsMarked(sb, d, ns) && Valid(ns, x)
    requires exists b: nat :: b < UINT && Stored(d, ns, e, ms, x, b)
    ensures GoodSuper(sb, e) && Inodes(ms) && |ms| == |ns|
    ensures forall y: nat | y < sb.data :: e[y] == d[y]
    ensures forall y: nat | y < sb.size :: Marked(sb, e, y) == Marked(sb, d, y)
  {
    var b: nat :| b < UINT && Stored(d, ns, e, ms, x, b);
    forall y: nat | y < sb.size
      ensures sb.bmapstart + y / BPB < sb.data
    {
      assert y / BPB <= (sb.size - 1) / BPB;
    }
  }

  /** A block freed and its slot cleared: ownership stays complete. */
  lemma Freed(sb: Super, d: seq<Block>, ns: seq<Inode>, e: seq<Block>, f: seq<Block>, ms: seq<Inode>, x: Pos)
    requires Owned(sb, d, ns, {}) && Valid(ns, x) && At(d, ns, x) != 0 && Childless(d, ns, x)
    requires Stored(d, ns, e, ms, x, 0) && GoodSuper(sb, f)
    requires forall y: nat | sb.data <= y < sb.size :: f[y] == e[y]
    requires forall y: nat | y < sb.size :: Marked(sb, f, y) == (y != At(d, ns, x) && Marked(sb, d, y))
    ensures Owned(sb, f, ms, {})
    ensures forall y | Valid(ns, y) :: At(f, ms, y) == if y == x then 0 else At(d, ns, y)
  {
    forall y | Valid(ns, y)
      ensures Inodes(ms) && At(e, ms, y) == if y == x then 0 else At(d, ns, y)
    {
      StoreAt(sb, d, ns, e, ms, x, 0, y);
    }
    Relinked(sb, d, ns, e, ms, x);
    AtFrame(e, f, ms);
    forall y: nat | sb.data <= y < sb.size && Marked(sb, f, y)
      ensures IsOwned(f, ms, y)
    {
      var z :| Valid(ns, z) && At(d, ns, z) == y;
      assert At(f, ms, z) == y;
    }
  }

  // ---- the path of a file block ----

  /** The position bmap walks to for block bn of a file. */
  function PathOf(bn: nat): (p: Path)
    requires bn < MAXFILE
    ensures Good(p) && !Interior(p)
  {
    if bn < NDIRECT then Top(bn) else
    var bn1 := bn - NDIRECT;
    if bn1 < NINDIRECT then Sub(Top(NDIRECT), bn1) else
    var bn2 := bn1 - NINDIRECT;
    if bn2 < NDINDIRECT then Sub(Sub(Top(NDIRECT + 1), bn2 / NINDIRECT), bn2 % NINDIRECT) else
    var bn3 := bn2 - NDINDIRECT;
    var p0 := Top(NDIRECT + 2);
    assert Good(p0) && Level(p0) == 0 && Root(p0) == NDIRECT + 2;
    var p1 := Sub(p0, bn3 / NDINDIRECT);
    assert Good(p1) && Level(p1) == 1 && Root(p1) == NDIRECT + 2;
    var p2 := Sub(p1, bn3 % NDINDIRECT / NINDIRECT);
    assert Good(p2) && Level(p2) == 2 && Root(p2) == NDIRECT + 2;
    Sub(p2, bn3 % NDINDIRECT % NINDIRECT)
  }

  lemma PathOfInjective(m: nat, n: nat)
    requires m < MAXFILE && n < MAXFILE && PathOf(m) == PathOf(n)
    ensures m == n
  {
  }

  /** Every data position is the position of some file block. */
  lemma PathOfOnto(p: Path) returns (bn: nat)
    requires Good(p) && !Interior(p)
    ensures bn < MAXFILE && PathOf(bn) == p
  {
    match p
    case Top(k) => bn := k;
    case Sub(Top(k), i) => bn := NDIRECT + i;
    case Sub(Sub(q, i), j) =>
      assert Good(q) && Interior(Sub(q, i));
      match q {
        case Top(k) =>
          bn := NDIRECT + NINDIRECT + i * NINDIRECT + j;
          TwoDigits(i, j);
        case Sub(r, h) =>
          assert Good(r) && Level(p) == 3 + Level(r) && Root(p) == Root(r);
          GoodTop(r);
          bn := NDIRECT + NINDIRECT + NDINDIRECT + h * NDINDIRECT + i * NINDIRECT + j;
          ThreeDigits(h, i, j);
      }
  }

  /** p comes before q in the order of the tree: an earlier address of the inode, or in the first index
      block where their ways part, an earlier entry. */
  predicate Before(p: Path, q: Path) {
    match p
    case Top(k) => k < Root(q)
    case Sub(r, i) => if q.Top? then Root(p) < q.k else Before(r, q.parent) || (r == q.parent && i < q.i)
  }

  lemma BeforeEntry(r: Path, i: nat, j: nat)
    requires i < j
    ensures Before(Sub(r, i), Sub(r, j))
  {
  }

  lemma BeforeUnder(p: Path, q: Path, i: nat, j: nat)
    requires Before(p, q)
    ensures Before(Sub(p, i), Sub(q, j))
  {
  }

  lemma {:induction false} BeforeRoots(p: Path, q: Path)
    requires Root(p) < Root(q)
    ensures Before(p, q)
    decreases p
  {
    if p.Sub? && q.Sub? { BeforeRoots(p.parent, q.parent); }
  }

  lemma {:induction false} BeforeOneWay(p: Path, q: Path)
    ensures !(Before(p, q) && Before(q, p)) && (Before(p, q) ==> p != q && Root(p) <= Root(q))
    decreases p
  {
    if p.Sub? && q.Sub? { BeforeOneWay(p.parent, q.parent); }
  }

  lemma RootOf(n: nat)
    requires n < MAXFILE
    ensures Root(PathOf(n)) == if n < NDIRECT then n else if n < NDIRECT + NINDIRECT then NDIRECT
                               else if n < NDIRECT + NINDIRECT + NDINDIRECT then NDIRECT + 1 else NDIRECT + 2
  {
    var p := PathOf(n);
    if p.Sub? && p.parent.Sub? { assert Root(p) == Root(p.parent.parent); }
  }

  lemma TwoDigitsOrder(a: nat, b: nat)
    requires a < b
    ensures a / NINDIRECT < b / NINDIRECT || (a / NINDIRECT == b / NINDIRECT && a % NINDIRECT < b % NINDIRECT)
  {
  }

  lemma ThreeDigitsOrder(a: nat, b: nat)
    requires a < b
    ensures a / NDINDIRECT < b / NDINDIRECT || (a / NDINDIRECT == b / NDINDIRECT && a % NDINDIRECT < b % NDINDIRECT)
  {
  }

  /** The order of two entries two levels down. */
  lemma BeforeTwo(r: Path, a: nat, b: nat)
    requires a < b
    ensures Before(Sub(Sub(r, a / NINDIRECT), a % NINDIRECT), Sub(Sub(r, b / NINDIRECT), b % NINDIRECT))
  {
    TwoDigitsOrder(a, b);
    var i, j := a / NINDIRECT, b / NINDIRECT;
    if i < j {
      BeforeEntry(r, i, j);
      BeforeUnder(Sub(r, i), Sub(r, j), a % NINDIRECT, b % NINDIRECT);
    } else {
      BeforeEntry(Sub(r, i), a % NINDIRECT, b % NINDIRECT);
    }
  }

  lemma BeforeThree(r: Path, a: nat, b: nat)
    requires a < b
    ensures var x, y := a % NDINDIRECT, b % NDINDIRECT;
            Before(Sub(Sub(Sub(r, a / NDINDIRECT), x / NINDIRECT), x % NINDIRECT),
                   Sub(Sub(Sub(r, b / NDINDIRECT), y / NINDIRECT), y % NINDIRECT))
  {
    ThreeDigitsOrder(a, b);
    var i, j, x, y := a / NDINDIRECT, b / NDINDIRECT, a % NDINDIRECT, b % NDINDIRECT;
    if i < j {
      BeforeEntry(r, i, j);
      BeforeUnder(Sub(r, i), Sub(r, j), x / NINDIRECT, y / NINDIRECT);
      BeforeUnder(Sub(Sub(r, i), x / NINDIRECT), Sub(Sub(r, j), y / NINDIRECT), x % NINDIRECT, y % NINDIRECT);
    } else {
      BeforeTwo(Sub(r, i), x, y);
    }
  }

  /** The blocks of a file lie in the order of the tree. */
  lemma PathOfOrder(m: nat, n: nat)
    requires m < n < MAXFILE
    ensures Before(PathOf(m), PathOf(n))
  {
    RootOf(m);
    RootOf(n);
    if Root(PathOf(m)) < Root(PathOf(n)) {
      BeforeRoots(PathOf(m), PathOf(n));
    } else if m < NDIRECT + NINDIRECT {
      BeforeEntry(Top(NDIRECT), m - NDIRECT, n - NDIRECT);
    } else if m < NDIRECT + NINDIRECT + NDINDIRECT {
      BeforeTwo(Top(NDIRECT + 1), m - NDIRECT - NINDIRECT, n - NDIRECT - NINDIRECT);
    } else {
      var base := NDIRECT + NINDIRECT + NDINDIRECT;
      BeforeThree(Top(NDIRECT + 2), m - base, n - base);
    }
  }

  /** f numbers the data positions of a tree in its order. */
  ghost predicate Numbers(f: nat -> Path) {
    && (forall n: nat | n < MAXFILE :: Good(f(n)) && !Interior(f(n)))
    && (forall p | Good(p) && !Interior(p) :: exists n: nat | n < MAXFILE :: f(n) == p)
    && (forall m: nat, n: nat | m < n < MAXFILE :: Before(f(m), f(n)))
  }

  ghost function NumberOf(f: nat -> Path, p: Path): (n: nat)
    requires Numbers(f) && Good(p) && !Interior(p)
    ensures n < MAXFILE && f(n) == p
  {
    var n: nat :| n < MAXFILE && f(n) == p;
    n
  }

  lemma {:induction false} NumberingsAgree(f: nat -> Path, g: nat -> Path, n: nat)
    requires Numbers(f) && Numbers(g) && n < MAXFILE
    ensures f(n) == g(n)
  {
    var m: nat, j: nat := NumberOf(g, f(n)), NumberOf(f, g(n));
    if m < n {
      NumberingsAgree(f, g, m);
      Apart(f, m, n);
    } else if j < n {
      NumberingsAgree(f, g, j);
      Apart(g, j, n);
    } else if n < m && n < j {
      Apart(g, n, m);
      Apart(f, n, j);
    }
  }

  lemma Apart(f: nat -> Path, m: nat, n: nat)
    requires Numbers(f) && m < n < MAXFILE
    ensures Before(f(m), f(n)) && !Before(f(n), f(m)) && f(m) != f(n)
  {
    BeforeOneWay(f(m), f(n));
  }

  function FileBlock(n: nat): (p: Path) { if n < MAXFILE then PathOf(n) else Top(0) }

  /** bmap numbers the positions in the order of the tree, and there is no other way to do it. */
  lemma NumberingForced(f: nat -> Path, n: nat)
    requires n < MAXFILE
    ensures Numbers(FileBlock) && (Numbers(f) ==> f(n) == PathOf(n))
  {
    forall p | Good(p) && !Interior(p)
      ensures exists k: nat | k < MAXFILE :: FileBlock(k) == p
    {
      var k := PathOfOnto(p);
      assert FileBlock(k) == p;
    }
    forall k: nat, l: nat | k < l < MAXFILE
      ensures Before(FileBlock(k), FileBlock(l))
    {
      PathOfOrder(k, l);
    }
    if Numbers(f) { NumberingsAgree(f, FileBlock, n); }
  }

  lemma TwoDigits(i: nat, j: nat)
    requires i < NINDIRECT && j < NINDIRECT
    ensures var n := i * NINDIRECT + j; n < NDINDIRECT && n / NINDIRECT == i && n % NINDIRECT == j
  {
  }

  lemma ThreeDigits(h: nat, i: nat, j: nat)
    requires h < NINDIRECT && i < NINDIRECT && j < NINDIRECT
    ensures var n := h * NDINDIRECT + i * NINDIRECT + j;
            && n / NDINDIRECT == h && n % NDINDIRECT == i * NINDIRECT + j
            && n % NDINDIRECT / NINDIRECT == i && n % NDINDIRECT % NINDIRECT == j
  {
    TwoDigits(i, j);
  }

  /** Three levels below the top is a data position of the triple indirect tree. */
  lemma GoodTop(r: Path)
    requires Good(r) && 2 + Level(r) < Height(Root(r))
    ensures r == Top(NDIRECT + 2)
  {
    GoodRoot(r);
  }

  lemma GoodRoot(r: Path)
    requires Good(r)
    ensures Root(r) < NADDR
  {
  }

  /** p is q or lies on the way to it. */
  predicate OnWay(p: Path, q: Path) { p == q || (q.Sub? && OnWay(p, q.parent)) }

  lemma {:induction false} OnWayInterior(p: Path, q: Path)
    requires OnWay(p, q) && Good(q) && p != q
    ensures Good(p) && Interior(p)
  {
    if p != q.parent { OnWayInterior(p, q.parent); }
  }

  function BlockOf(d: seq<Block>, ns: seq<Inode>, ino: nat, bn: nat): (b: nat)
    requires Inodes(ns) && ino < |ns| && bn < MAXFILE
  {
    At(d, ns, Pos(ino, PathOf(bn)))
  }

  /** From (d, ns) to (e, ms) blocks were only added, and only on the way to `leaf` in inode ino:
      no slot in use changed, and no data block's content did. */
  ghost predicate Grows(d: seq<Block>, ns: seq<Inode>, e: seq<Block>, ms: seq<Inode>, ino: nat, leaf: Path) {
    && Inodes(ns) && Inodes(ms) && |ms| == |ns| && |e| == |d|
    && (forall i | 0 <= i < |ns| :: ms[i].size == ns[i].size && (i != ino ==> ms[i] == ns[i]))
    && (forall x | Valid(ns, x) :: At(e, ms, x) == At(d, ns, x) || (At(d, ns, x) == 0 && x.ino == ino && OnWay(x.path, leaf)))
    && (forall x | Valid(ns, x) && !Interior(x.path) && 0 < At(d, ns, x) < |d| :: e[At(d, ns, x)] == d[At(d, ns, x)])
  }

  lemma GrowsTrans(d: seq<Block>, ns: seq<Inode>, e: seq<Block>, ms: seq<Inode>, f: seq<Block>, ls: seq<Inode>,
                   ino: nat, leaf: Path)
    requires Grows(d, ns, e, ms, ino, leaf) && Grows(e, ms, f, ls, ino, leaf)
    ensures Grows(d, ns, f, ls, ino, leaf)
  {
  }

  /** bmap maps distinct (inode, index) pairs to distinct blocks. */
  lemma BlocksDistinct(sb: Super, d: seq<Block>, ns: seq<Inode>, i: nat, m: nat, j: nat, n: nat)
    requires Owned(sb, d, ns, {}) && i < |ns| && j < |ns| && m < MAXFILE && n < MAXFILE
    requires BlockOf(d, ns, i, m) != 0 && BlockOf(d, ns, i, m) == BlockOf(d, ns, j, n)
    ensures i == j && m == n
  {
    PathOfInjective(m, n);
  }

  /** A block is marked in the bitmap if and only if it is metadata or occurs, once, in a tree. */
  lemma MarkedIffOwned(sb: Super, d: seq<Block>, ns: seq<Inode>, b: nat)
    requires Owned(sb, d, ns, {}) && b < sb.size
    ensures Marked(sb, d, b) <==> b < sb.data || IsOwned(d, ns, b)
    ensures forall x, y | Valid(ns, x) && Valid(ns, y) && At(d, ns, x) == b && At(d, ns, y) == b && b != 0 :: x == y
  {
  }

  /** Growing on the way to file block bn leaves every other file block where it is. */
  lemma GrowsElsewhere(d: seq<Block>, ns: seq<Inode>, e: seq<Block>, ms: seq<Inode>, ino: nat, bn: nat, j: nat, n: nat)
    requires bn < MAXFILE && n < MAXFILE && Grows(d, ns, e, ms, ino, PathOf(bn)) && j < |ns| && (j, n) != (ino, bn)
    ensures BlockOf(e, ms, j, n) == BlockOf(d, ns, j, n)
  {
    if j == ino {
      if PathOf(n) == PathOf(bn) { PathOfInjective(n, bn); }
      if OnWay(PathOf(n), PathOf(bn)) && n != bn { OnWayInterior(PathOf(n), PathOf(bn)); }
    }
  }

  // ---- taking a tree down ----

  /** x lies in inode ino strictly below p. */
  predicate Below(x: Pos, ino: nat, p: Path) { x.ino == ino && x.path != p && OnWay(p, x.path) }

  lemma {:induction false} OnWayLevel(p: Path, q: Path)
    requires OnWay(p, q)
    ensures Level(p) <= Level(q)
  {
    if p != q { OnWayLevel(p, q.parent); }
  }

  lemma {:induction false} OnWayTrans(p: Path, q: Path, r: Path)
    requires OnWay(p, q) && OnWay(q, r)
    ensures OnWay(p, r)
  {
    if q != r { OnWayTrans(p, q, r.parent); }
  }

  /** From (d, ns) to (e, ms) slots of inode ino were only cleared, and nothing of another inode
      changed: no slot, no block content, no size. */
  ghost predicate Shrinks(d: seq<Block>, ns: seq<Inode>, e: seq<Block>, ms: seq<Inode>, ino: nat) {
    && Inodes(ns) && Inodes(ms) && |ms| == |ns| && |e| == |d|
    && (forall i | 0 <= i < |ns| :: ms[i].size == ns[i].size && (i != ino ==> ms[i] == ns[i]))
    && (forall x | Valid(ns, x) :: At(e, ms, x) == At(d, ns, x) || (x.ino == ino && At(e, ms, x) == 0))
    && (forall x | Valid(ns, x) && x.ino != ino && 0 < At(d, ns, x) < |d| :: e[At(d, ns, x)] == d[At(d, ns, x)])
  }

  lemma ShrinksTrans(d: seq<Block>, ns: seq<Inode>, e: seq<Block>, ms: seq<Inode>, f: seq<Block>, ls: seq<Inode>, ino: nat)
    requires Shrinks(d, ns, e, ms, ino) && Shrinks(e, ms, f, ls, ino)
    ensures Shrinks(d, ns, f, ls, ino)
  {
  }

  /** With all its addresses clear an inode has no block at all. */
  lemma {:induction false} BareInode(d: seq<Block>, a: seq<nat>, p: Path)
    requires |a| == NADDR && Good(p) && forall k | 0 <= k < NADDR :: a[k] == 0
    ensures Slot(d, a, p) == 0
  {
    match p
    case Top(k) =>
    case Sub(q, i) => BareInode(d, a, q);
  }

  ghost predicate OwnedBy(d: seq<Block>, ns: seq<Inode>, ino: nat, b: nat)
    requires Inodes(ns)
  {
    exists x :: Valid(ns, x) && x.ino == ino && At(d, ns, x) == b
  }

  /** Ownership before and after fixes the bitmap: exactly the inode's blocks were freed. */
  lemma FreedExactly(sb: Super, d: seq<Block>, ns: seq<Inode>, e: seq<Block>, ms: seq<Inode>, ino: nat, b: nat)
    requires Owned(sb, d, ns, {}) && Owned(sb, e, ms, {}) && |ms| == |ns| && b < sb.size
    requires forall x | Valid(ns, x) :: At(e, ms, x) == if x.ino == ino then 0 else At(d, ns, x)
    ensures Marked(sb, e, b) <==> Marked(sb, d, b) && (b < sb.data || !OwnedBy(d, ns, ino, b))
  {
    if b >= sb.data {
      if Marked(sb, e, b) {
        var x :| Valid(ms, x) && At(e, ms, x) == b;
        assert At(d, ns, x) == b;
      }
      if Marked(sb, d, b) && !OwnedBy(d, ns, ino, b) {
        var x :| Valid(ns, x) && At(d, ns, x) == b;
        assert At(e, ms, x) == b;
      }
    }
  }
}
