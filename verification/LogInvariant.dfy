/** The invariant that ties bio.c to log.c, and its preservation by every step. */
module LogInvariant {
  import opened Common
  import opened Blocks
  import opened LogModel

  /** References counted; a held buffer is valid; a dirty one is valid and on the disk's device. */
  predicate BufOk(b: Buf, users: set<Pid>, size: nat) {
    && b.refcnt == |users|
    && (b.holder.Some? ==> b.holder.value in users && b.valid)
    && (users != {} || b.dirty || b.valid ==> b.dev == 1)
    && (b.dev == 1 ==> b.blockno < size)
    && (b.dirty ==> b.valid)
  }

  /** One buffer per block. */
  ghost predicate CacheInv(s: Sys)
    requires Shape(s)
  {
    && (forall i | 0 <= i < NBUF :: BufOk(s.buf[i], s.users[i], |s.disk|))
    && (forall i, j | 0 <= i < j < NBUF :: s.buf[i].dev == 1 && s.buf[j].dev == 1 ==> s.buf[i].blockno != s.buf[j].blockno)
  }

  /** The operation protocol: who is inside an operation, and when a commit may run. */
  ghost predicate ProtocolInv(s: Sys)
    requires Shape(s)
  {
    && s.outstanding == |s.ops|
    && (s.committing <==> !s.phase.Quiet? && !s.booting)
    && (!s.phase.Quiet? ==> s.ops == {})
    && (s.booting ==> s.phase.ReadHead? || s.phase.Install? || s.phase.ClearHead? || s.phase.Cleared?)
    && (s.phase.ReadHead? ==> s.booting)
    && (forall p | p in s.checked :: p in s.ops && s.checked[p] < NBUF
          && s.buf[s.checked[p]].holder == Some(p) && Home(s, s.buf[s.checked[p]].blockno))
    && (forall i | i in s.tainted :: i < NBUF && s.buf[i].holder.Some? && s.buf[i].holder.value in s.ops
          && Home(s, s.buf[i].blockno))
    && s.fault !in {WasCommitting, OutsideTrans, Overrun}
  }

  /** The log entries from this one on are pinned in the cache; earlier ones are installed. */
  function PinFrom(s: Sys): (k: nat) {
    if s.booting then s.n else if s.phase.Install? then s.phase.tail else 0
  }

  /** The dirty buffers are exactly those of the pinned entries of `lh.block`. */
  ghost predicate PinInv(s: Sys)
    requires Shape(s)
  {
    && s.n <= LOGSIZE
    && (forall k | 0 <= k < s.n :: Home(s, s.block[k]))
    && (forall k, l | 0 <= k < l < s.n :: s.block[k] != s.block[l])
    && (forall k | PinFrom(s) <= k < s.n ::
          s.pin[k] < NBUF && s.buf[s.pin[k]].dirty && s.buf[s.pin[k]].blockno == s.block[k])
    && (forall i | 0 <= i < NBUF && s.buf[i].dirty ::
          PinFrom(s) <= s.entry[i] < s.n && s.pin[s.entry[i]] == i)
  }

  /** `full` and the bounds on n in each phase. */
  ghost predicate SizeInv(s: Sys)
    requires Shape(s)
  {
    && (s.n >= LOGSIZE - 1 && !s.booting ==> s.full)
    && (s.phase.Quiet? && s.ops == {} ==> s.n <= LOGSIZE - 2)
    && (s.phase.WriteLog? ==> s.phase.tail <= s.n && (s.phase.tail > 0 ==> s.n < LOGSIZE))
    && (!s.phase.Quiet? && !s.phase.WriteLog? ==> s.n < LOGSIZE)
    && (s.phase.Install? ==> s.phase.tail <= s.n)
    && (s.phase.ClearHead? || s.phase.Cleared? ==> s.n == 0)
  }

  /** A clean cached copy is what the disk holds. */
  ghost predicate CleanInv(s: Sys)
    requires Shape(s)
  {
    forall i | 0 <= i < NBUF && s.buf[i].valid && !s.buf[i].dirty && i !in s.tainted
      && s.buf[i].dev == 1 && s.buf[i].blockno < |s.disk| && s.buf[i].blockno !in s.stale ::
      s.buf[i].data == s.disk[s.buf[i].blockno]
  }

  /** A pinned buffer holds what was last logged for its block. */
  ghost predicate DirtyInv(s: Sys)
    requires Shape(s)
  {
    forall i | 0 <= i < NBUF && s.buf[i].dirty && i !in s.tainted
      && s.buf[i].blockno < |s.disk| && s.buf[i].blockno !in s.stale ::
      s.buf[i].data == s.spec[s.buf[i].blockno]
  }

  /** The home location of a block that is not pinned holds what was last logged for it. */
  ghost predicate HomeInv(s: Sys)
    requires Shape(s)
  {
    && (!s.booting ==> forall b: nat | Home(s, b) && b !in s.stale && !Pinned(s, b) :: s.disk[b] == s.spec[b])
    && (forall b | b in s.stale :: Home(s, b))
  }

  ghost predicate Pinned(s: Sys, b: nat)
    requires Shape(s)
  {
    exists k: nat :: PinFrom(s) <= k < s.n && k < LOGSIZE && s.block[k] == b
  }

  /** `head` is what the on-disk header says. */
  ghost predicate TieInv(s: Sys)
    requires Shape(s)
  {
    && |s.head| < LOGSIZE
    && HeadN(s.start, s.disk) == |s.head|
    && (forall k: nat | k < |s.head| :: HeadAt(s.start, s.disk, k) == s.head[k])
  }

  /** The on-disk header lists distinct home blocks and is a prefix of the in-memory one. */
  ghost predicate HeadInv(s: Sys)
    requires Shape(s)
  {
    && |s.head| < LOGSIZE
    && (forall k | 0 <= k < |s.head| :: Home(s, s.head[k]))
    && (forall k, l | 0 <= k < l < |s.head| :: s.head[k] != s.head[l])
    && (!s.phase.ReadHead? && !s.phase.ClearHead? ==>
          |s.head| <= s.n && forall k | 0 <= k < |s.head| :: s.head[k] == s.block[k])
    && (s.phase.Committed? || s.phase.Install? || s.phase.Cleared? ==> |s.head| == s.n)
  }

  /** Home blocks outside the header are as committed. */
  ghost predicate SavedHomeInv(s: Sys)
    requires Shape(s)
  {
    forall b: nat | Home(s, b) && b !in s.head :: s.disk[b] == s.saved[b]
  }

  /** Slots of the header not yet overwritten by the running commit are as committed. */
  ghost predicate SavedSlotInv(s: Sys)
    requires Shape(s) && HeadInv(s)
  {
    forall k | 0 <= k < |s.head| && !(s.phase.WriteLog? && k < s.phase.tail) ::
      s.disk[s.start + 1 + k] == s.saved[s.head[k]]
  }

  /** Slots written by the running commit hold the pinned buffers. */
  ghost predicate WrittenSlotInv(s: Sys)
    requires Shape(s) && PinInv(s)
  {
    s.phase.WriteLog? && !s.booting && s.phase.tail <= s.n ==>
      forall k | 0 <= k < s.phase.tail :: s.disk[s.start + 1 + k] == s.buf[s.pin[k]].data
  }

  /** Installed entries are at home. */
  ghost predicate InstalledInv(s: Sys)
    requires Shape(s) && HeadInv(s)
  {
    s.phase.Install? || s.phase.ClearHead? ==>
      forall k | 0 <= k < |s.head| && (s.phase.Install? ==> k < s.phase.tail) ::
        s.disk[s.head[k]] == s.disk[s.start + 1 + k]
  }

  /** With no operation active and no commit under way the committed state is the logical one. */
  ghost predicate SpecInv(s: Sys)
    requires Shape(s)
  {
    s.ops == {} && !s.phase.WriteLog? ==> forall b: nat | Home(s, b) && b !in s.stale :: s.saved[b] == s.spec[b]
  }

  ghost predicate Inv(s: Sys) {
    && Shape(s) && CacheInv(s) && ProtocolInv(s) && PinInv(s) && SizeInv(s)
    && CleanInv(s) && DirtyInv(s) && HomeInv(s) && TieInv(s) && HeadInv(s)
    && SavedHomeInv(s) && SavedSlotInv(s) && WrittenSlotInv(s) && InstalledInv(s) && SpecInv(s)
  }

  // ---- bget and brelse: reference counts and one buffer per block ----

  lemma GetCache(s: Sys, p: Pid, b: nat, i: nat)
    requires Shape(s) && CacheInv(s) && CanGet(s, p, b, i)
    ensures CacheInv(DoGet(s, p, i))
  {
  }

  lemma RecycleCache(s: Sys, p: Pid, b: nat, i: nat)
    requires Shape(s) && CacheInv(s) && CanRecycle(s, p, b, i)
    ensures CacheInv(DoRecycle(s, p, b, i))
  {
    assert BufOk(s.buf[i], s.users[i], |s.disk|);
    assert s.users[i] == {};
    forall j | 0 <= j < NBUF
      ensures !(s.buf[j].dev == 1 && s.buf[j].blockno == b)
    {
      assert !Caches(s, j, b);
    }
  }

  lemma LockCache(s: Sys, p: Pid, i: nat)
    requires Shape(s) && CacheInv(s) && CanLock(s, p, i)
    ensures CacheInv(DoLock(s, p, i))
  {
    var t := DoLock(s, p, i);
    assert BufOk(s.buf[i], s.users[i], |s.disk|);
    assert BufOk(t.buf[i], s.users[i], |s.disk|);
  }

  lemma ModifyCache(s: Sys, p: Pid, i: nat, d: Block)
    requires Shape(s) && CacheInv(s) && CanModify(s, p, i)
    ensures CacheInv(DoModify(s, i, d))
  {
  }

  lemma ReleaseCache(s: Sys, p: Pid, i: nat)
    requires Shape(s) && CacheInv(s) && Holds(s, p, i)
    ensures CacheInv(DoRelease(s, p, i))
  {
    assert BufOk(s.buf[i], s.users[i], |s.disk|);
  }

  lemma MarkedCache(s: Sys, p: Pid, i: nat)
    requires Shape(s) && CacheInv(s) && i < NBUF && s.buf[i].dev == 1 && s.buf[i].valid && s.buf[i].blockno < |s.disk|
    ensures CacheInv(Marked(s, p, i))
  {
    assert BufOk(s.buf[i], s.users[i], |s.disk|);
  }

  lemma WrittenCache(s: Sys, i: nat, d: Block)
    requires Shape(s) && CacheInv(s) && i < NBUF && s.buf[i].dev == 1 && s.buf[i].blockno < |s.disk|
    ensures CacheInv(Written(s, i, d))
  {
    assert BufOk(s.buf[i], s.users[i], |s.disk|);
  }

  // ---- the operation protocol ----

  lemma GetProtocol(s: Sys, p: Pid, b: nat, i: nat)
    requires Shape(s) && ProtocolInv(s) && CanGet(s, p, b, i)
    ensures ProtocolInv(DoGet(s, p, i))
  {
  }

  lemma RecycleProtocol(s: Sys, p: Pid, b: nat, i: nat)
    requires Shape(s) && CacheInv(s) && ProtocolInv(s) && CanRecycle(s, p, b, i)
    ensures ProtocolInv(DoRecycle(s, p, b, i))
  {
    assert BufOk(s.buf[i], s.users[i], |s.disk|);
    assert s.users[i] == {};
    assert s.buf[i].holder.None?;
  }

  lemma LockProtocol(s: Sys, p: Pid, i: nat)
    requires Shape(s) && ProtocolInv(s) && CanLock(s, p, i)
    ensures ProtocolInv(DoLock(s, p, i))
  {
  }

  lemma ModifyProtocol(s: Sys, p: Pid, i: nat, d: Block)
    requires Shape(s) && ProtocolInv(s) && CanModify(s, p, i)
    ensures ProtocolInv(DoModify(s, i, d))
  {
  }

  lemma ReleaseProtocol(s: Sys, p: Pid, i: nat)
    requires Shape(s) && ProtocolInv(s) && Holds(s, p, i) && p !in s.checked
    ensures ProtocolInv(DoRelease(s, p, i))
  {
  }

  lemma LogCheckProtocol(s: Sys, p: Pid, i: nat)
    requires Shape(s) && ProtocolInv(s) && CanModify(s, p, i)
    ensures ProtocolInv(DoLogCheck(s, p, i))
  {
    assert |s.ops| >= 1 by { assert s.ops == s.ops - {p} + {p}; }
  }

  lemma MarkedProtocol(s: Sys, p: Pid, i: nat)
    requires Shape(s) && ProtocolInv(s) && CanLogWrite(s, p, i)
    ensures ProtocolInv(Marked(s, p, i))
  {
  }

  lemma WrittenProtocol(s: Sys, i: nat, d: Block)
    requires Shape(s) && ProtocolInv(s) && i < NBUF && s.buf[i].blockno < |s.disk|
    ensures ProtocolInv(Written(s, i, d))
  {
  }

  lemma EndOpProtocol(s: Sys, p: Pid)
    requires Shape(s) && CacheInv(s) && ProtocolInv(s) && p in s.ops && p !in s.checked && Unreferenced(s, p)
    ensures ProtocolInv(DoEndOp(s, p))
    ensures !s.committing
  {
    assert |s.ops - {p}| == |s.ops| - 1;
    forall i | i in s.tainted
      ensures s.buf[i].holder.value != p
    {
      assert BufOk(s.buf[i], s.users[i], |s.disk|);
    }
  }

  // ---- counting: each pinned entry has a buffer of its own ----

  function PinSet(s: Sys, k: nat): (r: set<nat>)
    requires k <= |s.pin|
  {
    set j | 0 <= j < k :: s.pin[j]
  }

  lemma PinsDistinct(s: Sys, j: nat, k: nat)
    requires Shape(s) && PinInv(s) && PinFrom(s) == 0 && j < k < s.n
    ensures s.pin[j] != s.pin[k]
  {
  }

  lemma {:induction false} PinSetSize(s: Sys, k: nat)
    requires k <= |s.pin| && forall i, j | 0 <= i < j < k :: s.pin[i] != s.pin[j]
    ensures |PinSet(s, k)| == k
  {
    if k > 0 {
      PinSetSize(s, k - 1);
      assert PinSet(s, k) == PinSet(s, k - 1) + {s.pin[k - 1]};
      assert s.pin[k - 1] !in PinSet(s, k - 1);
    }
  }

  function Upto(m: nat): (r: set<nat>)
    ensures |r| == m
    ensures forall x :: x in r <==> 0 <= x < m
  {
    if m == 0 then {} else Upto(m - 1) + {m - 1}
  }

  lemma {:induction false} SubsetSize(a: set<nat>, b: set<nat>)
    requires a <= b
    ensures |a| <= |b|
  {
    if a != {} {
      var x :| x in a;
      SubsetSize(a - {x}, b - {x});
    }
  }

  /** A buffer that is not dirty leaves room: fewer than LOGSIZE blocks are logged. */
  lemma CleanBufferMeansRoom(s: Sys, i: nat)
    requires Shape(s) && PinInv(s) && PinFrom(s) == 0 && i < NBUF && !s.buf[i].dirty
    ensures s.n < LOGSIZE
  {
    forall j, k | 0 <= j < k < s.n
      ensures s.pin[j] != s.pin[k]
    {
      PinsDistinct(s, j, k);
    }
    PinSetSize(s, s.n);
    assert i !in PinSet(s, s.n);
    ProperSubsetSize(PinSet(s, s.n), NBUF, i);
  }

  /** The log entries that pin the buffers below k other than j. */
  function EntrySet(s: Sys, k: nat, j: nat): (r: set<nat>)
    requires k <= |s.entry|
  {
    set i | 0 <= i < k && i != j :: s.entry[i]
  }

  lemma {:induction false} EntrySetSize(s: Sys, k: nat, j: nat)
    requires k <= |s.entry|
    requires forall x, y | 0 <= x < y < k && x != j && y != j :: s.entry[x] != s.entry[y]
    ensures |EntrySet(s, k, j)| == if j < k then k - 1 else k
  {
    if k > 0 {
      EntrySetSize(s, k - 1, j);
      if k - 1 == j {
        assert EntrySet(s, k, j) == EntrySet(s, k - 1, j);
      } else {
        assert EntrySet(s, k, j) == EntrySet(s, k - 1, j) + {s.entry[k - 1]};
        assert s.entry[k - 1] !in EntrySet(s, k - 1, j);
      }
    }
  }

  /** The converse: if every buffer, but for j, is dirty, the log has as many entries. */
  lemma AllDirtyMeansFull(s: Sys, j: nat)
    requires Shape(s) && PinInv(s) && forall i | 0 <= i < NBUF && i != j :: s.buf[i].dirty
    ensures s.n >= if j < NBUF then NBUF - 1 else NBUF
  {
    forall x, y | 0 <= x < y < NBUF && x != j && y != j ensures s.entry[x] != s.entry[y] {
      assert s.pin[s.entry[x]] == x && s.pin[s.entry[y]] == y;
    }
    EntrySetSize(s, NBUF, j);
    SubsetSize(EntrySet(s, NBUF, j), Upto(s.n));
  }

  lemma ProperSubsetSize(d: set<nat>, m: nat, i: nat)
    requires i < m && i !in d && forall x | x in d :: x < m
    ensures |d| < m
  {
    SubsetSize(d + {i}, Upto(m));
  }

  /** A buffer of a log-region block is never dirty. */
  lemma LogBufferClean(s: Sys, i: nat)
    requires Shape(s) && PinInv(s) && i < NBUF && !Home(s, s.buf[i].blockno)
    ensures !s.buf[i].dirty
  {
  }

  /** log_write never indexes past the end of `lh.block`. */
  lemma LogWriteInBounds(s: Sys, p: Pid, i: nat)
    requires Shape(s) && PinInv(s) && PinFrom(s) == 0 && CanLogWrite(s, p, i)
    ensures Logged(s, s.buf[i].blockno) || s.n < LOGSIZE
  {
    if s.buf[i].dirty {
      assert s.block[s.entry[i]] == s.buf[i].blockno;
    } else {
      CleanBufferMeansRoom(s, i);
    }
  }

  // ---- dirty buffers are exactly the pinned log entries ----

  lemma GetPin(s: Sys, i: nat, p: Pid)
    requires Shape(s) && PinInv(s) && i < NBUF
    ensures PinInv(DoGet(s, p, i))
  {
  }

  lemma RecyclePin(s: Sys, p: Pid, b: nat, i: nat)
    requires Shape(s) && PinInv(s) && CanRecycle(s, p, b, i)
    ensures PinInv(DoRecycle(s, p, b, i))
  {
  }

  lemma LockPin(s: Sys, p: Pid, i: nat)
    requires Shape(s) && PinInv(s) && CanLock(s, p, i)
    ensures PinInv(DoLock(s, p, i))
  {
  }

  lemma ModifyPin(s: Sys, i: nat, d: Block)
    requires Shape(s) && PinInv(s) && i < NBUF
    ensures PinInv(DoModify(s, i, d))
  {
  }

  lemma ReleasePin(s: Sys, p: Pid, i: nat)
    requires Shape(s) && PinInv(s) && i < NBUF
    ensures PinInv(DoRelease(s, p, i))
  {
  }

  /** log absorption: a block already logged is already pinned in this very buffer. */
  lemma LoggedIsDirty(s: Sys, i: nat)
    requires Shape(s) && CacheInv(s) && PinInv(s) && PinFrom(s) == 0 && i < NBUF && s.buf[i].dev == 1
    requires Logged(s, s.buf[i].blockno)
    ensures s.buf[i].dirty
  {
    var k: nat :| k < s.n && k < |s.block| && s.block[k] == s.buf[i].blockno;
    assert BufOk(s.buf[s.pin[k]], s.users[s.pin[k]], |s.disk|);
  }

  lemma MarkedPin(s: Sys, p: Pid, i: nat)
    requires Shape(s) && PinInv(s) && i < NBUF && s.buf[i].blockno < |s.disk| && s.buf[i].dirty
    ensures PinInv(Marked(s, p, i))
  {
    assert Marked(s, p, i).buf == s.buf;
  }

  lemma AppendedPin(s: Sys, p: Pid, i: nat)
    requires Shape(s) && CacheInv(s) && PinInv(s) && PinFrom(s) == 0 && !s.booting && i < NBUF
    requires Home(s, s.buf[i].blockno) && !Logged(s, s.buf[i].blockno) && s.n < LOGSIZE
    ensures PinInv(Marked(Appended(s, i), p, i))
  {
    assert !s.buf[i].dirty;
    var t := Marked(Appended(s, i), p, i);
    assert forall k | 0 <= k < s.n :: s.block[k] != s.buf[i].blockno;
    assert forall k | 0 <= k < s.n :: t.pin[k] == s.pin[k] != i;
  }

  lemma LogBlockWrittenPin(s: Sys, i: nat, d: Block)
    requires Shape(s) && PinInv(s) && i < NBUF && s.buf[i].blockno < |s.disk| && !Home(s, s.buf[i].blockno)
    ensures PinInv(Written(s, i, d))
  {
    LogBufferClean(s, i);
  }

  lemma InstallWritePin(s: Sys, i: nat, j: nat)
    requires Shape(s) && CacheInv(s) && PinInv(s) && CanInstallWrite(s, i, j)
    ensures PinInv(DoInstallWrite(s, i, j))
  {
    if s.booting {
      InstallWriteBooting(s, i, j);
    } else {
      var p := s.pin[s.phase.tail];
      assert BufOk(s.buf[p], s.users[p], |s.disk|);
      InstallWriteRunning(s, i, j);
    }
  }

  lemma InstallWriteRunning(s: Sys, i: nat, j: nat)
    requires Shape(s) && PinInv(s) && CanInstallWrite(s, i, j) && !s.booting && s.pin[s.phase.tail] == j
    ensures PinInv(DoInstallWrite(s, i, j))
  {
    var t := DoInstallWrite(s, i, j);
    assert PinFrom(t) == PinFrom(s) + 1;
    forall k | PinFrom(t) <= k < t.n
      ensures t.pin[k] < NBUF && t.buf[t.pin[k]].dirty && t.buf[t.pin[k]].blockno == t.block[k]
    {
      assert s.pin[k] != j;
    }
  }

  lemma InstallWriteBooting(s: Sys, i: nat, j: nat)
    requires Shape(s) && PinInv(s) && CanInstallWrite(s, i, j) && s.booting
    ensures PinInv(DoInstallWrite(s, i, j))
  {
  }

  // ---- cached data ----

  lemma GetData(s: Sys, p: Pid, i: nat)
    requires Shape(s) && CleanInv(s) && DirtyInv(s) && HomeInv(s) && i < NBUF
    ensures var t := DoGet(s, p, i); CleanInv(t) && DirtyInv(t) && HomeInv(t)
  {
    HomeFrame(s, DoGet(s, p, i));
  }

  lemma RecycleData(s: Sys, p: Pid, b: nat, i: nat)
    requires Shape(s) && CleanInv(s) && DirtyInv(s) && HomeInv(s) && CanRecycle(s, p, b, i)
    ensures var t := DoRecycle(s, p, b, i); CleanInv(t) && DirtyInv(t) && HomeInv(t)
  {
    HomeFrame(s, DoRecycle(s, p, b, i));
  }

  lemma LockData(s: Sys, p: Pid, i: nat)
    requires Shape(s) && CacheInv(s) && CleanInv(s) && DirtyInv(s) && HomeInv(s) && CanLock(s, p, i)
    ensures var t := DoLock(s, p, i); CleanInv(t) && DirtyInv(t) && HomeInv(t)
  {
    assert BufOk(s.buf[i], s.users[i], |s.disk|);
    HomeFrame(s, DoLock(s, p, i));
  }

  lemma ModifyData(s: Sys, p: Pid, i: nat, d: Block)
    requires Shape(s) && CleanInv(s) && DirtyInv(s) && HomeInv(s) && i < NBUF
    ensures var t := DoModify(s, i, d); CleanInv(t) && DirtyInv(t) && HomeInv(t)
  {
    HomeFrame(s, DoModify(s, i, d));
  }

  lemma ReleaseData(s: Sys, p: Pid, i: nat)
    requires Shape(s) && CleanInv(s) && DirtyInv(s) && HomeInv(s) && i < NBUF
    requires i in s.tainted ==> Home(s, s.buf[i].blockno)
    ensures var t := DoRelease(s, p, i); CleanInv(t) && DirtyInv(t) && HomeInv(t)
  {
    HomeFrame(s, DoRelease(s, p, i));
  }

  lemma HomeFrame(s: Sys, t: Sys)
    requires Shape(s) && HomeInv(s) && Shape(t)
    requires s.start == t.start && s.disk == t.disk && s.spec == t.spec && s.stale <= t.stale && s.booting == t.booting
    requires forall b | b in t.stale :: b in s.stale || Home(s, b)
    requires s.n == t.n && s.block == t.block && s.phase == t.phase
    ensures HomeInv(t)
  {
    forall b: nat | !s.booting && Home(t, b) && b !in t.stale && !Pinned(t, b)
      ensures t.disk[b] == t.spec[b]
    {
      assert !Pinned(s, b);
    }
  }

  lemma MarkedData(s: Sys, p: Pid, i: nat)
    requires Shape(s) && CacheInv(s) && CleanInv(s) && DirtyInv(s) && i < NBUF
    requires s.buf[i].dev == 1 && s.buf[i].blockno < |s.disk|
    ensures var t := Marked(s, p, i); CleanInv(t) && DirtyInv(t)
  {
    var t := Marked(s, p, i);
    forall j | 0 <= j < NBUF && j != i && s.buf[j].dev == 1
      ensures s.buf[j].blockno != s.buf[i].blockno
    {
    }
    forall j | 0 <= j < NBUF
      ensures s.buf[j].dirty ==> s.buf[j].dev == 1
    {
      assert BufOk(s.buf[j], s.users[j], |s.disk|);
    }
  }

  lemma MarkedHome(s: Sys, p: Pid, i: nat)
    requires Shape(s) && HomeInv(s) && i < NBUF && s.buf[i].blockno < |s.disk| && Pinned(s, s.buf[i].blockno)
    ensures HomeInv(Marked(s, p, i))
  {
    var t := Marked(s, p, i);
    forall b: nat | !s.booting && Home(t, b) && b !in t.stale && !Pinned(t, b)
      ensures t.disk[b] == t.spec[b]
    {
      assert !Pinned(s, b);
    }
  }

  lemma AppendedHome(s: Sys, i: nat)
    requires Shape(s) && HomeInv(s) && i < NBUF && s.n < LOGSIZE && PinFrom(s) == 0 && !s.booting
    ensures HomeInv(Appended(s, i)) && Pinned(Appended(s, i), s.buf[i].blockno)
  {
    var t := Appended(s, i);
    assert t.block[s.n] == s.buf[i].blockno;
    forall b: nat | Pinned(s, b)
      ensures Pinned(t, b)
    {
      var k: nat :| PinFrom(s) <= k < s.n && k < LOGSIZE && s.block[k] == b;
      assert t.block[k] == b;
    }
  }

  lemma WrittenData(s: Sys, i: nat, d: Block)
    requires Shape(s) && CacheInv(s) && CleanInv(s) && DirtyInv(s) && i < NBUF
    requires s.buf[i].dev == 1 && s.buf[i].blockno < |s.disk|
    ensures var t := Written(s, i, d); CleanInv(t) && DirtyInv(t)
  {
    forall j | 0 <= j < NBUF && j != i && s.buf[j].dev == 1
      ensures s.buf[j].blockno != s.buf[i].blockno
    {
    }
  }

  lemma LogBlockWrittenHome(s: Sys, i: nat, d: Block, ph: Phase)
    requires Shape(s) && HomeInv(s) && i < NBUF && s.buf[i].blockno < |s.disk| && !Home(s, s.buf[i].blockno)
    requires !ph.Install? && !s.phase.Install?
    ensures HomeInv(Written(s, i, d).(phase := ph))
  {
    var t := Written(s, i, d).(phase := ph);
    forall b: nat | !s.booting && Home(t, b) && b !in t.stale && !Pinned(t, b)
      ensures t.disk[b] == t.spec[b]
    {
      assert !Pinned(s, b);
    }
  }

  /** Installing an entry unpins it: its home location now holds what was logged. */
  lemma InstallWriteHome(s: Sys, i: nat, j: nat)
    requires Shape(s) && HomeInv(s) && CanInstallWrite(s, i, j)
    requires !s.booting && s.block[s.phase.tail] !in s.stale ==> s.buf[i].data == s.spec[s.block[s.phase.tail]]
    ensures HomeInv(DoInstallWrite(s, i, j))
  {
    var t := DoInstallWrite(s, i, j);
    forall b: nat | !s.booting && Home(t, b) && b !in t.stale && !Pinned(t, b)
      ensures t.disk[b] == t.spec[b]
    {
      if b != s.block[s.phase.tail] { assert !Pinned(s, b); }
    }
  }

  /** A held buffer of a log-region block holds what the disk does. */
  lemma HeldLogBuffer(s: Sys, i: nat)
    requires Shape(s) && CacheInv(s) && ProtocolInv(s) && PinInv(s) && CleanInv(s) && HomeInv(s)
    requires i < NBUF && s.buf[i].holder.Some? && s.buf[i].blockno < |s.disk| && !Home(s, s.buf[i].blockno)
    ensures s.buf[i].data == s.disk[s.buf[i].blockno]
  {
    LogBufferClean(s, i);
    assert BufOk(s.buf[i], s.users[i], |s.disk|);
  }

  // ---- the header and the slots on disk ----

  lemma {:induction false} ReplayMiss(start: nat, disk: seq<Block>, b: nat, k: nat)
    requires InDisk(start, disk) && b < |disk| && k <= LOGSIZE
    requires forall l: nat | l < k :: HeadAt(start, disk, l) != b
    ensures Replay(start, disk, b, k) == disk[b]
  {
    if k > 0 { ReplayMiss(start, disk, b, k - 1); }
  }

  lemma {:induction false} ReplayHit(start: nat, disk: seq<Block>, h: nat, k: nat)
    requires InDisk(start, disk) && h < k <= LOGSIZE && HeadAt(start, disk, h) < |disk|
    requires forall l: nat | h < l < k :: HeadAt(start, disk, l) != HeadAt(start, disk, h)
    ensures Replay(start, disk, HeadAt(start, disk, h), k) == disk[start + 1 + h]
  {
    if k > h + 1 { ReplayHit(start, disk, h, k - 1); }
  }

  /** What recovery gives, from the header and the slots. */
  lemma RecoveredCases(s: Sys, b: nat)
    requires Shape(s) && TieInv(s) && HeadInv(s) && Home(s, b)
    ensures b !in s.head ==> Recovered(s.start, s.disk, b) == s.disk[b]
    ensures forall k | 0 <= k < |s.head| && s.head[k] == b ::
              Recovered(s.start, s.disk, b) == s.disk[s.start + 1 + k]
  {
    if b !in s.head {
      ReplayMiss(s.start, s.disk, b, |s.head|);
    }
    forall k | 0 <= k < |s.head| && s.head[k] == b
      ensures Recovered(s.start, s.disk, b) == s.disk[s.start + 1 + k]
    {
      ReplayHit(s.start, s.disk, k, |s.head|);
    }
  }

  lemma TieFrame(s: Sys, t: Sys)
    requires Shape(s) && TieInv(s) && Shape(t)
    requires s.start == t.start && s.head == t.head && s.disk[s.start] == t.disk[t.start]
    ensures TieInv(t)
  {
  }

  /** After write_head the on-disk header is the in-memory one. */
  lemma HeadWriteTie(s: Sys, i: nat)
    requires Shape(s) && CanHeadWrite(s, i) && s.n < LOGSIZE
    ensures TieInv(DoHeadWrite(s, i))
  {
    PutHeadWords(s.buf[i].data, s.n, s.block, s.n);
    assert DoHeadWrite(s, i).disk[s.start] == PutHead(s.buf[i].data, s.n, s.block, s.n);
  }

  lemma HeadFrame(s: Sys, t: Sys)
    requires Shape(s) && HeadInv(s) && Shape(t)
    requires s.start == t.start && |s.disk| == |t.disk| && s.head == t.head
    requires t.phase.ReadHead? || t.phase.ClearHead? || (!s.phase.ReadHead? && !s.phase.ClearHead?
      && s.n <= t.n && forall k | 0 <= k < s.n && k < LOGSIZE :: t.block[k] == s.block[k])
    requires t.phase.Committed? || t.phase.Install? || t.phase.Cleared? ==> |s.head| == t.n
    ensures HeadInv(t)
  {
  }

  lemma HeadWriteHead(s: Sys, i: nat)
    requires Shape(s) && PinInv(s) && CanHeadWrite(s, i) && s.n < LOGSIZE
    ensures HeadInv(DoHeadWrite(s, i))
  {
  }

  /** Steps that write nothing to disk keep what recovery gives. */
  lemma SavedFrame(s: Sys, t: Sys)
    requires Shape(s) && HeadInv(s) && SavedHomeInv(s) && SavedSlotInv(s) && InstalledInv(s)
    requires Shape(t) && HeadInv(t)
    requires s.start == t.start && s.disk == t.disk && s.saved == t.saved && s.head == t.head
    requires t.phase.Install? || t.phase.ClearHead? ==> t.phase == s.phase || t.phase == Install(0)
    requires s.phase.WriteLog? ==> t.phase == s.phase
    ensures SavedHomeInv(t) && SavedSlotInv(t) && InstalledInv(t)
  {
  }

  lemma WrittenSlotFrame(s: Sys, t: Sys)
    requires Shape(s) && PinInv(s) && WrittenSlotInv(s) && Shape(t) && PinInv(t)
    requires t.phase.WriteLog? && !t.booting ==> s.phase == t.phase && !s.booting && s.start == t.start && s.disk == t.disk && s.n == t.n && s.pin == t.pin
    requires t.phase.WriteLog? ==> forall i | 0 <= i < NBUF && s.buf[i].dirty :: t.buf[i].data == s.buf[i].data
    ensures WrittenSlotInv(t)
  {
  }

  /** One more slot of the running commit holds its pinned buffer. */
  lemma SlotWriteWritten(s: Sys, i: nat, j: nat)
    requires Shape(s) && PinInv(s) && WrittenSlotInv(s) && CanSlotWrite(s, i, j) && !s.booting
    requires s.phase.tail < s.n < LOGSIZE && s.pin[s.phase.tail] == j && !s.buf[i].dirty
    requires PinInv(DoSlotWrite(s, i, j))
    ensures WrittenSlotInv(DoSlotWrite(s, i, j))
  {
    var t := DoSlotWrite(s, i, j);
    forall k | 0 <= k < t.phase.tail
      ensures t.disk[t.start + 1 + k] == t.buf[t.pin[k]].data
    {
      assert s.pin[k] != i;
      if k < s.phase.tail { assert t.disk[t.start + 1 + k] == s.disk[s.start + 1 + k]; }
    }
  }

  /** The buffer that caches a pinned block is the one its entry names. */
  lemma PinOfHeld(s: Sys, k: nat, j: nat)
    requires Shape(s) && CacheInv(s) && PinInv(s) && PinFrom(s) <= k < s.n && Caches(s, j, s.block[k])
    ensures s.pin[k] == j
  {
    assert BufOk(s.buf[s.pin[k]], s.users[s.pin[k]], |s.disk|);
  }

  /** The other slots, and every home block, are as before. */
  lemma SlotWriteSaved(s: Sys, i: nat, j: nat)
    requires Shape(s) && HeadInv(s) && CanSlotWrite(s, i, j) && s.phase.tail < s.n < LOGSIZE
    requires SavedHomeInv(s) && SavedSlotInv(s)
    ensures var t := DoSlotWrite(s, i, j); HeadInv(t) && SavedHomeInv(t) && SavedSlotInv(t)
  {
    var t := DoSlotWrite(s, i, j);
    assert HeadInv(t) by { HeadFrame(s, t); }
    SlotSaved(s, t, s.start + 1 + s.phase.tail);
  }

  lemma SlotSaved(s: Sys, t: Sys, x: nat)
    requires Shape(s) && Shape(t) && HeadInv(s) && HeadInv(t) && SavedHomeInv(s) && SavedSlotInv(s)
    requires t.start == s.start && t.head == s.head && t.saved == s.saved && s.phase.WriteLog?
    requires x == s.start + 1 + s.phase.tail < s.start + LOGSIZE && t.disk == s.disk[x := t.disk[x]] && t.phase == WriteLog(s.phase.tail + 1)
    ensures SavedHomeInv(t) && SavedSlotInv(t)
  {
  }

  lemma InstallWriteSaved(s: Sys, i: nat, j: nat)
    requires Shape(s) && HeadInv(s) && CanInstallWrite(s, i, j) && s.n < LOGSIZE
    requires SavedHomeInv(s) && SavedSlotInv(s)
    ensures var t := DoInstallWrite(s, i, j); HeadInv(t) && SavedHomeInv(t) && SavedSlotInv(t)
  {
    var t := DoInstallWrite(s, i, j);
    assert HeadInv(t) by { HeadFrame(s, t); }
    assert s.head[s.phase.tail] == s.block[s.phase.tail];
  }

  lemma InstallWriteInstalled(s: Sys, i: nat, j: nat)
    requires Shape(s) && HeadInv(s) && CanInstallWrite(s, i, j) && s.n < LOGSIZE && InstalledInv(s)
    requires s.buf[i].data == s.disk[s.start + 1 + s.phase.tail]
    requires HeadInv(DoInstallWrite(s, i, j))
    ensures InstalledInv(DoInstallWrite(s, i, j))
  {
    var t := DoInstallWrite(s, i, j);
    assert s.head[s.phase.tail] == s.block[s.phase.tail];
    forall k | 0 <= k < |t.head| && k < t.phase.tail
      ensures t.disk[t.head[k]] == t.disk[t.start + 1 + k]
    {
      assert t.disk[t.start + 1 + k] == s.disk[s.start + 1 + k];
    }
  }

  /** The commit point: recovery now gives what was last logged. */
  lemma CommitSlot(s: Sys, t: Sys)
    requires Committing(s, t) && PinInv(s) && DirtyInv(s) && HomeInv(s) && WrittenSlotInv(s)
    ensures SavedHomeInv(t) && SavedSlotInv(t) && SpecInv(t)
  {
    forall b: nat | Home(t, b)
      ensures b !in t.head ==> t.disk[b] == t.saved[b]
      ensures b !in t.stale ==> t.saved[b] == t.spec[b]
    {
      if b in t.head {
        var k :| 0 <= k < |t.head| && t.head[k] == b;
        CommitLogged(s, t, k);
      } else {
        CommitUnlogged(s, t, b);
      }
    }
    forall k | 0 <= k < |t.head|
      ensures t.disk[t.start + 1 + k] == t.saved[t.head[k]]
    {
      CommitLogged(s, t, k);
    }
  }

  /** write_head has just been done at the end of write_log. */
  ghost predicate Committing(s: Sys, t: Sys) {
    && Shape(s) && s.phase.WriteLog? && s.phase.tail == s.n < LOGSIZE && !s.booting && s.tainted == {}
    && Shape(t) && HeadInv(t) && TieInv(t) && t.start == s.start && |t.disk| == |s.disk| && t.phase.Committed?
    && (forall x: nat | x < |s.disk| && x != s.start :: t.disk[x] == s.disk[x])
    && t.head == s.block[..s.n] && t.spec == s.spec && t.stale == s.stale
    && t.saved == View(t.start, t.disk)
  }

  lemma CommitLogged(s: Sys, t: Sys, k: nat)
    requires Committing(s, t) && PinInv(s) && DirtyInv(s) && WrittenSlotInv(s) && k < |t.head|
    ensures t.disk[t.start + 1 + k] == t.saved[t.head[k]]
    ensures t.head[k] !in t.stale ==> t.saved[t.head[k]] == t.spec[t.head[k]]
  {
    ViewAt(t.start, t.disk, t.head[k]);
    RecoveredCases(t, t.head[k]);
    assert s.disk[s.start + 1 + k] == s.buf[s.pin[k]].data;
  }

  lemma CommitUnlogged(s: Sys, t: Sys, b: nat)
    requires Committing(s, t) && HomeInv(s) && Home(t, b) && b !in t.head
    ensures t.disk[b] == t.saved[b]
    ensures b !in t.stale ==> t.saved[b] == t.spec[b]
  {
    ViewAt(t.start, t.disk, b);
    RecoveredCases(t, b);
    assert !Pinned(s, b);
  }

  /** Clearing the header after an install does not change what recovery gives. */
  lemma ClearSlot(s: Sys, i: nat)
    requires Shape(s) && HeadInv(s) && s.phase.ClearHead? && CanHeadWrite(s, i) && s.n == 0
    requires SavedHomeInv(s) && SavedSlotInv(s) && InstalledInv(s)
    ensures var t := DoHeadWrite(s, i); SavedHomeInv(t) && t.head == []
  {
    var t := DoHeadWrite(s, i);
    forall b: nat | Home(t, b)
      ensures t.disk[b] == t.saved[b]
    {
      if b in s.head {
        var k :| 0 <= k < |s.head| && s.head[k] == b;
      }
    }
  }

  lemma BootedSaved(t: Sys)
    requires Shape(t) && TieInv(t) && HeadInv(t) && t.saved == View(t.start, t.disk)
    ensures SavedHomeInv(t)
    ensures forall k | 0 <= k < |t.head| :: t.disk[t.start + 1 + k] == t.saved[t.head[k]]
  {
    forall b: nat | Home(t, b) && b !in t.head
      ensures t.disk[b] == t.saved[b]
    {
      RecoveredCases(t, b);
      ViewAt(t.start, t.disk, b);
    }
    forall k | 0 <= k < |t.head|
      ensures t.disk[t.start + 1 + k] == t.saved[t.head[k]]
    {
      RecoveredCases(t, t.head[k]);
      ViewAt(t.start, t.disk, t.head[k]);
    }
  }

  lemma BootedInv(s: Sys, boot: Pid)
    requires Shape(s) && TieInv(s) && HeadInv(s)
    ensures Inv(Booted(s.start, s.disk, boot))
  {
    var t := Booted(s.start, s.disk, boot);
    assert t.head == s.head;
    assert TieInv(t) by { TieFrame(s, t); }
    assert HeadInv(t) by { HeadFrame(s, t); }
    BootedSaved(t);
    BootedRest(t);
    BootedSlots(t);
  }

  lemma BootedRest(t: Sys)
    requires Shape(t) && t == Booted(t.start, t.disk, t.committer)
    ensures CacheInv(t) && ProtocolInv(t) && PinInv(t) && SizeInv(t) && CleanInv(t) && DirtyInv(t) && HomeInv(t)
  {
  }

  lemma BootedSlots(t: Sys)
    requires Shape(t) && HeadInv(t) && PinInv(t) && t.phase.ReadHead? && t.booting && t.spec == t.saved
    requires forall k | 0 <= k < |t.head| :: t.disk[t.start + 1 + k] == t.saved[t.head[k]]
    ensures SavedSlotInv(t) && WrittenSlotInv(t) && InstalledInv(t) && SpecInv(t)
  {
  }

  lemma BufFrame(s: Sys, t: Sys)
    requires Shape(s) && CacheInv(s) && CleanInv(s) && DirtyInv(s) && Shape(t)
    requires s.buf == t.buf && s.users == t.users && s.disk == t.disk && s.spec == t.spec
    requires s.tainted == t.tainted && s.stale == t.stale
    ensures CacheInv(t) && CleanInv(t) && DirtyInv(t)
  {
  }

  /** A write to a log-region block, whatever it does to the phase and to the header. */
  lemma LogBlockWritten(s: Sys, i: nat, d: Block, t: Sys)
    requires Shape(s) && CacheInv(s) && CleanInv(s) && DirtyInv(s) && HomeInv(s) && PinInv(s)
    requires i < NBUF && s.buf[i].dev == 1 && s.buf[i].blockno < |s.disk| && !Home(s, s.buf[i].blockno)
    requires Shape(t) && t == Written(s, i, d).(phase := t.phase, head := t.head, saved := t.saved)
    requires !s.phase.Install? && !t.phase.Install?
    ensures CacheInv(t) && CleanInv(t) && DirtyInv(t) && HomeInv(t) && PinInv(t)
  {
    var w := Written(s, i, d);
    WrittenCache(s, i, d);
    WrittenData(s, i, d);
    BufFrame(w, t);
    LogBlockWrittenHome(s, i, d, t.phase);
    LogBlockWrittenPin(s, i, d);
    HomeFrame(w.(phase := t.phase), t);
  }
}
