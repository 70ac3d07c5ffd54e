/** What the file system does to the disk, one store at a time. */
module FsStores {
  import opened Blocks
  import opened FsTree

  /** A block changed and logged, an inode written through by iupdate, or a block changed and released
      without log_write. */
  datatype Store = ToBlock(b: nat, data: Block) | ToInode(ino: nat, n: Inode) | Unlogged(b: nat, data: Block)

  /** The blocks and inodes of the disk, and the blocks whose last change was not logged. */
  datatype FsDisk = FsDisk(disk: seq<Block>, dinodes: seq<Inode>, stale: set<nat>)

  function Made(v: FsDisk, st: Store): (w: FsDisk)
    ensures |w.disk| == |v.disk| && |w.dinodes| == |v.dinodes|
  {
    match st
    case ToBlock(b, data) => if b < |v.disk| then v.(disk := v.disk[b := data], stale := v.stale - {b}) else v
    case ToInode(ino, n) => if ino < |v.dinodes| then v.(dinodes := v.dinodes[ino := n]) else v
    case Unlogged(b, data) => if b < |v.disk| then v.(disk := v.disk[b := data], stale := v.stale + {b}) else v
  }

  function AllMade(v: FsDisk, sts: seq<Store>): (w: FsDisk)
    ensures |w.disk| == |v.disk| && |w.dinodes| == |v.dinodes|
    decreases |sts|
  {
    if sts == [] then v else AllMade(Made(v, sts[0]), sts[1..])
  }

  lemma {:induction false} MadeLast(v: FsDisk, sts: seq<Store>, st: Store)
    ensures AllMade(v, sts + [st]) == Made(AllMade(v, sts), st)
    decreases |sts|
  {
    var all := sts + [st];
    if sts == [] {
      assert all[1..] == [];
    } else {
      assert all[0] == sts[0] && all[1..] == sts[1..] + [st];
      MadeLast(Made(v, sts[0]), sts[1..], st);
    }
  }

  lemma {:induction false} MadeInTurn(v: FsDisk, a: seq<Store>, b: seq<Store>)
    ensures AllMade(v, a + b) == AllMade(AllMade(v, a), b)
    decreases |a|
  {
    var all := a + b;
    if a == [] {
      assert all == b;
    } else {
      assert all[0] == a[0] && all[1..] == a[1..] + b;
      MadeInTurn(Made(v, a[0]), a[1..], b);
    }
  }

  /** Blocks changed without log_write are free, but for those that a truncation is about to free. */
  ghost predicate Tidy(sb: Super, v: FsDisk, dirty: set<nat>) {
    GoodSuper(sb, v.disk) && forall b | b in v.stale :: b in dirty || (b < sb.size && !Marked(sb, v.disk, b))
  }

  /** A tidy view that holds this disk and these inodes. */
  ghost predicate Holds(sb: Super, v: FsDisk, disk: seq<Block>, dinodes: seq<Inode>, dirty: set<nat>) {
    v.disk == disk && v.dinodes == dinodes && Tidy(sb, v, dirty)
  }

  /** A logged store that marks no block but b, which it stores itself. */
  lemma StoreHolds(sb: Super, v: FsDisk, b: nat, data: Block, dirty: set<nat>)
    requires Tidy(sb, v, dirty) && b < sb.size && GoodSuper(sb, v.disk[b := data])
    requires forall y: nat | y < sb.size && Marked(sb, v.disk[b := data], y) :: Marked(sb, v.disk, y)
    ensures Tidy(sb, Made(v, ToBlock(b, data)), dirty)
  {
  }

  /** balloc's two: the bitmap block, then the new block, which is logged as zeroes. */
  lemma TwoStoresHold(sb: Super, v: FsDisk, bb: nat, bits: Block, b: nat, data: Block, dirty: set<nat>)
    requires Tidy(sb, v, dirty) && bb < sb.size && b < sb.size && GoodSuper(sb, v.disk[bb := bits][b := data])
    requires forall y: nat | y < sb.size && Marked(sb, v.disk[bb := bits][b := data], y) :: y == b || Marked(sb, v.disk, y)
    ensures Tidy(sb, Made(Made(v, ToBlock(bb, bits)), ToBlock(b, data)), dirty)
  {
  }

  lemma UnloggedHolds(sb: Super, v: FsDisk, b: nat, data: Block, dirty: set<nat>)
    requires Tidy(sb, v, dirty) && b < sb.size && GoodSuper(sb, v.disk[b := data])
    requires forall y: nat | y < sb.size :: Marked(sb, v.disk[b := data], y) == Marked(sb, v.disk, y)
    ensures Tidy(sb, Made(v, Unlogged(b, data)), dirty + {b})
  {
  }
}
