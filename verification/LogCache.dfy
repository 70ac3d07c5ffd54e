/** bio.c and log.c in their own form: the buffer array, the LRU ring and the log record, updated
    in place. Every method takes the steps of LogModel, so every state it reaches is Reachable. */
module LogCache {
  import opened Common
  import opened Blocks
  import opened LogModel
  import opened LogInvariant
  import opened LogSteps
  import opened LogTheorems
  import opened BufferRing

  /** No buffer is in use. */
  ghost predicate Unused(s: Sys) {
    forall i | 0 <= i < |s.users| && i < |s.buf| :: s.users[i] == {} && s.buf[i].holder.None?
  }

  /** p runs a commit, a sync or recovery, and no other process is in the file system. */
  ghost predicate Alone(s: Sys, p: Pid) {
    s.fault == Running && s.committer == p && s.ops == {} && s.checked == map[] && s.tainted == {} && Unused(s)
  }

  /** p has come to hold buffer i, which caches b; nothing else has changed. */
  ghost predicate Took(s: Sys, t: Sys, p: Pid, b: nat, i: nat) {
    && i < |s.buf| == |s.users|
    && |t.buf| == |s.buf| && |t.users| == |s.users|
    && t == s.(buf := s.buf[i := t.buf[i]], users := s.users[i := s.users[i] + {p}])
    && Caches(t, i, b) && Holds(t, p, i) && p !in s.users[i]
  }

  /** What commit, sync and recovery leave alone. */
  ghost predicate KeepsLog(s: Sys, t: Sys) {
    && t.start == s.start && |t.disk| == |s.disk|
    && t.block == s.block && t.full == s.full && t.outstanding == s.outstanding && t.committing == s.committing
    && t.ops == s.ops && t.checked == s.checked && t.committer == s.committer && t.booting == s.booting
    && t.spec == s.spec && t.stale == s.stale && t.tainted == s.tainted && t.fault == s.fault
  }

  lemma TakeGet(s: Sys, p: Pid, b: nat, i: nat)
    requires Reachable(s) && Shape(s) && s.fault == Running && CanGet(s, p, b, i)
    ensures Reachable(DoGet(s, p, i)) && Shape(DoGet(s, p, i))
  {
    ReachableStep(s, Get(p, b, i));
  }

  lemma TakeRecycle(s: Sys, p: Pid, b: nat, i: nat)
    requires Reachable(s) && Shape(s) && s.fault == Running && CanRecycle(s, p, b, i)
    ensures Reachable(DoRecycle(s, p, b, i)) && Shape(DoRecycle(s, p, b, i))
  {
    ReachableStep(s, Recycle(p, b, i));
  }

  lemma TakeOutOfBuffers(s: Sys, p: Pid, b: nat)
    requires Reachable(s) && Shape(s) && s.fault == Running && Active(s, p) && b < |s.disk| && !Cached(s, b) && NoneFree(s)
    ensures Reachable(s.(fault := NoBuffers)) && Shape(s.(fault := NoBuffers))
  {
    ReachableStep(s, OutOfBuffers(p, b));
  }

  lemma TakeLock(s: Sys, p: Pid, i: nat)
    requires Reachable(s) && Shape(s) && s.fault == Running && CanLock(s, p, i)
    ensures Reachable(DoLock(s, p, i)) && Shape(DoLock(s, p, i))
  {
    ReachableStep(s, Lock(p, i));
  }

  lemma TakeRelease(s: Sys, p: Pid, i: nat)
    requires Reachable(s) && Shape(s) && s.fault == Running && Holds(s, p, i) && p !in s.checked
    ensures Reachable(DoRelease(s, p, i)) && Shape(DoRelease(s, p, i))
  {
    ReachableStep(s, Release(p, i));
  }

  /** Both halves of a log_write that passes its checks. */
  lemma TakeLogWrite(s: Sys, p: Pid, i: nat)
    requires Reachable(s) && Shape(s) && s.fault == Running && CanModify(s, p, i)
    ensures s.outstanding >= 1
    ensures s.n >= LOGSIZE ==> Reachable(s.(fault := TooBig)) && Shape(s.(fault := TooBig))
    ensures s.n < LOGSIZE ==> var c := s.(checked := s.checked[p := i]);
              Shape(c) && CanLogWrite(c, p, i) && Reachable(DoLogWrite(c, p, i)) && Shape(DoLogWrite(c, p, i))
  {
    ReachableInv(s);
    assert |s.ops| >= 1 by { assert s.ops == s.ops - {p} + {p}; }
    ReachableStep(s, LogCheck(p, i));
    if s.n < LOGSIZE {
      ReachableStep(s.(checked := s.checked[p := i]), LogWrite(p, i));
    }
  }

  lemma TakeSlotWrite(s: Sys, i: nat, j: nat)
    requires Reachable(s) && Shape(s) && s.fault == Running && CanSlotWrite(s, i, j) && s.buf[i].blockno < |s.disk|
    ensures Reachable(DoSlotWrite(s, i, j)) && Shape(DoSlotWrite(s, i, j))
  {
    ReachableStep(s, SlotWrite(i, j));
  }

  lemma TakeInstallWrite(s: Sys, i: nat, j: nat)
    requires Reachable(s) && Shape(s) && s.fault == Running && CanInstallWrite(s, i, j)
    ensures Reachable(DoInstallWrite(s, i, j)) && Shape(DoInstallWrite(s, i, j))
  {
    ReachableStep(s, InstallWrite(i, j));
  }

  lemma TakeHeadWrite(s: Sys, i: nat)
    requires Reachable(s) && Shape(s) && s.fault == Running && CanHeadWrite(s, i)
    ensures Reachable(DoHeadWrite(s, i)) && Shape(DoHeadWrite(s, i))
  {
    ReachableStep(s, HeadWrite(i));
  }

  lemma TakeReadHeader(s: Sys, i: nat)
    requires Reachable(s) && Shape(s) && s.fault == Running && s.phase.ReadHead? && HoldsHead(s, i)
    ensures Word(s.buf[i].data, 0) <= LOGSIZE
    ensures Reachable(DoReadHeader(s, i)) && Shape(DoReadHeader(s, i))
  {
    ReachableInv(s);
    StepReadHeader(s, i);
    ReachableStep(s, ReadHeader(i));
  }

  lemma TakeEndOp(s: Sys, p: Pid)
    requires Reachable(s) && Shape(s) && s.fault == Running && p in s.ops && p !in s.checked && Unreferenced(s, p)
    ensures !s.committing && s.phase.Quiet? && Reachable(DoEndOp(s, p)) && Shape(DoEndOp(s, p))
    ensures s.outstanding >= 1 && s.n <= LOGSIZE
    ensures s.outstanding == 1 ==> DoEndOp(s, p).ops == {} && s.checked == map[] && s.tainted == {}
  {
    ReachableInv(s);
    EndOpProtocol(s, p);
    ReachableStep(s, LogModel.EndOp(p));
    assert |s.ops| >= 1 by { assert s.ops == s.ops - {p} + {p}; }
    if s.outstanding == 1 {
      assert |s.ops - {p}| == 0;
      ReachableInv(DoEndOp(s, p));
    }
  }

  /** A log of LOGSIZE-1 entries has set `full`. */
  lemma FullWhenDue(s: Sys)
    requires Reachable(s) && Shape(s) && s.phase.Committed?
    ensures s.n == LOGSIZE - 1 ==> s.full
  {
    ReachableInv(s);
  }

  lemma EmptyLogIsHome(s: Sys)
    requires Reachable(s) && Shape(s) && s.phase.Quiet? && s.n == 0
    ensures forall b: nat | Home(s, b) && b !in s.stale :: s.disk[b] == s.spec[b]
  {
    ReachableInv(s);
    assert forall b: nat :: !Pinned(s, b);
  }

  lemma Durable(s: Sys)
    requires Reachable(s) && Shape(s) && s.phase.Quiet? && s.ops == {}
    ensures HeadN(s.start, s.disk) <= LOGSIZE
    ensures forall b: nat | Home(s, b) && b !in s.stale :: Recovered(s.start, s.disk, b) == s.spec[b]
  {
    ReachableInv(s);
    forall b: nat | Home(s, b) && b !in s.stale
      ensures Recovered(s.start, s.disk, b) == s.spec[b]
    {
      CommitsAreDurable(s, b);
    }
  }

  /** iderw does not panic: the buffer is held, there is something to do, and the block exists. */
  predicate CanTransfer(b: Buf, p: Pid, size: nat) {
    b.holder == Some(p) && !(b.valid && !b.dirty) && b.dev == 1 && b.blockno < size
  }

  /** A commit or an install with nobody else in the cache finds a buffer while n < LOGSIZE. */
  lemma BufferLeft(s: Sys)
    requires Reachable(s) && Shape(s) && Unused(s) && s.n < LOGSIZE
    ensures !NoneFree(s)
  {
    ReachableInv(s);
    if forall i | 0 <= i < NBUF :: s.buf[i].dirty { AllDirtyMeansFull(s, NBUF); }
    var i :| 0 <= i < NBUF && !s.buf[i].dirty;
    assert BufOk(s.buf[i], s.users[i], |s.disk|);
  }

  /** The block of a log entry: pinned in the cache or, at boot, when no buffer is dirty, read into
      one of the buffers that are left. */
  lemma EntryBufferLeft(t: Sys, i: nat)
    requires Reachable(t) && Shape(t) && (t.phase.WriteLog? || t.phase.Install?) && t.phase.tail < t.n && t.n < LOGSIZE
    requires forall x | 0 <= x < NBUF && x != i :: t.users[x] == {}
    ensures Cached(t, t.block[t.phase.tail]) || !NoneFree(t)
  {
    ReachableInv(t);
    if t.booting {
      var x := if i == 0 then 1 else 0;
      assert BufOk(t.buf[x], t.users[x], |t.disk|);
    } else {
      var j := t.pin[t.phase.tail];
      assert BufOk(t.buf[j], t.users[j], |t.disk|);
      assert Caches(t, j, t.block[t.phase.tail]);
    }
  }

  /** With LOGSIZE entries pinned there is no buffer for the first slot of a commit, and no install. */
  lemma FullAtFirst(s: Sys)
    requires Reachable(s) && Shape(s) && (s.phase.WriteLog? || s.phase.Install?) && s.n >= LOGSIZE
    ensures s.n == LOGSIZE && s.phase == LogModel.WriteLog(0) && !Cached(s, s.start + 1) && NoneFree(s)
  {
    ReachableInv(s);
    FullLogCannotCommit(s, 0, 0);
  }

  class Storage {
    const start: nat
    const disk: array<Block>
    const buf: array<Buf>
    const ring: Ring
    const block: array<nat>
    var outstanding: int
    var committing: bool
    var full: bool
    var n: nat
    /** The state of the whole system, of which the fields above are the kernel's part. */
    ghost var sys: Sys

    ghost predicate Tied()
      reads this, disk, buf, block
    {
      && start == sys.start && disk[..] == sys.disk && buf[..] == sys.buf && block[..] == sys.block
      && outstanding == sys.outstanding && committing == sys.committing && full == sys.full && n == sys.n
    }

    ghost predicate Layout()
      reads this, ring, ring.next, ring.prev
    {
      && block != ring.next && block != ring.prev
      && ring.Valid() && ring.size == NBUF && |ring.order| == NBUF
      && (forall i: nat | i < NBUF :: i in ring.order)
    }

    ghost predicate Valid()
      reads this, disk, buf, block, ring, ring.next, ring.prev
    {
      Layout() && Tied() && Shape(sys) && Reachable(sys)
    }

    /** Power-on with this disk image: binit, and the log record as the loader leaves it. */
    constructor (start: nat, image: seq<Block>, ghost boot: Pid)
      requires GoodDisk(start, image)
      ensures Valid() && sys == Booted(start, image, boot)
      ensures fresh(disk) && fresh(buf) && fresh(block) && fresh(ring) && fresh(ring.next) && fresh(ring.prev)
    {
      this.start := start;
      disk := new Block[|image|](k requires 0 <= k < |image| => image[k]);
      buf := new Buf[NBUF](_ => Fresh());
      ring := new Ring(NBUF);
      block := new nat[LOGSIZE](_ => 0);
      outstanding, committing, full, n := 0, false, false, 0;
      sys := Booted(start, image, boot);
      new;
      BootReachable(start, image, boot);
    }

    /** iderw, as memide.c does it: write the block if the buffer is dirty, else read it. */
    method Iderw(p: Pid, i: nat) returns (ok: bool)
      requires i < buf.Length
      modifies disk, buf
      ensures ok <==> CanTransfer(old(buf[i]), p, disk.Length)
      ensures !ok ==> disk[..] == old(disk[..]) && buf[..] == old(buf[..])
      ensures ok && old(buf[i].dirty) ==> disk[..] == old(disk[..])[old(buf[i].blockno) := old(buf[i].data)]
      ensures ok && old(buf[i].dirty) ==> buf[..] == old(buf[..])[i := old(buf[i]).(dirty := false, valid := true)]
      ensures ok && !old(buf[i].dirty) ==> disk[..] == old(disk[..])
      ensures ok && !old(buf[i].dirty) ==>
                buf[..] == old(buf[..])[i := old(buf[i]).(data := old(disk[buf[i].blockno]), valid := true)]
    {
      var b := buf[i];
      if b.holder != Some(p) { return false; }
      if b.valid && !b.dirty { return false; }
      if b.dev != 1 { return false; }
      if b.blockno >= disk.Length { return false; }
      if b.dirty {
        disk[b.blockno] := b.data;
        buf[i] := b.(dirty := false, valid := true);
      } else {
        buf[i] := b.(data := disk[b.blockno], valid := true);
      }
      ok := true;
    }

    /** bwrite; the panic exactly when the caller does not hold the buffer, or iderw panics. */
    method Bwrite(p: Pid, i: nat) returns (ok: bool)
      requires i < buf.Length
      modifies disk, buf
      ensures ok <==> CanTransfer(old(buf[i]).(dirty := true), p, disk.Length)
      ensures ok ==> disk[..] == old(disk[..])[old(buf[i].blockno) := old(buf[i].data)]
      ensures ok ==> buf[..] == old(buf[..])[i := old(buf[i]).(dirty := false, valid := true)]
    {
      if buf[i].holder != Some(p) { return false; }
      buf[i] := buf[i].(dirty := true);
      ok := Iderw(p, i);
    }

    /** `memmove(to->data, from->data, BSIZE); bwrite(to)`, by a process that holds the buffer. */
    method CopyOut(p: Pid, to: nat, from: nat)
      requires to < buf.Length && from < buf.Length && CanTransfer(buf[to].(dirty := true), p, disk.Length)
      modifies disk, buf
      ensures disk[..] == old(disk[..])[old(buf[to].blockno) := old(buf[from].data)]
      ensures buf[..] == old(buf[..])[to := old(buf[to]).(data := old(buf[from].data), dirty := false, valid := true)]
    {
      PutOut(p, to, buf[from].data);
    }

    /** A new content for a held buffer, and bwrite. */
    method PutOut(p: Pid, i: nat, data: Block)
      requires i < buf.Length && CanTransfer(buf[i].(dirty := true), p, disk.Length)
      modifies disk, buf
      ensures disk[..] == old(disk[..])[old(buf[i].blockno) := data]
      ensures buf[..] == old(buf[..])[i := old(buf[i]).(data := data, dirty := false, valid := true)]
    {
      buf[i] := buf[i].(data := data);
      var ok := Bwrite(p, i);
    }

    /** The header block that write_head writes: n first, then the first n block numbers, over
        what the block held. */
    method FillHeader(was: Block) returns (hb: Block)
      requires n <= LOGSIZE == block.Length && forall k | 0 <= k < n :: block[k] < UINT
      ensures hb == PutHead(was, n, block[..], n)
    {
      hb := PutWord(was, 0, n);
      var k := 0;
      while k < n
        invariant k <= n && hb == PutHead(was, n, block[..], k)
      {
        hb := PutWord(hb, 1 + k, block[k]);
        k := k + 1;
      }
    }

    /** bget's first loop: from the most recently used buffer on, look for the block. */
    method Lookup(b: nat) returns (i: nat)
      requires Layout() && buf.Length == NBUF
      ensures i <= NBUF
      ensures i < NBUF ==> buf[i].dev == 1 && buf[i].blockno == b
      ensures i == NBUF ==> forall j | 0 <= j < NBUF :: !(buf[j].dev == 1 && buf[j].blockno == b)
    {
      ghost var o := ring.order;
      assert ring.next[..][Node(NBUF, o, 0)] == Node(NBUF, o, 1);
      i := ring.next[NBUF];
      ghost var k := 0;
      while i != NBUF
        invariant k <= NBUF && i == Node(NBUF, o, k + 1)
        invariant forall j | 0 <= j < k :: !(buf[o[j]].dev == 1 && buf[o[j]].blockno == b)
        decreases NBUF - k
      {
        if buf[i].dev == 1 && buf[i].blockno == b { return; }
        assert ring.next[..][Node(NBUF, o, k + 1)] == Node(NBUF, o, k + 2);
        i := ring.next[i];
        k := k + 1;
      }
      forall j | 0 <= j < NBUF
        ensures !(buf[j].dev == 1 && buf[j].blockno == b)
      {
        assert j in o;
      }
    }

    /** bget's second loop: from the least recently used buffer on, look for one that is neither
        referenced nor dirty. */
    method Victim() returns (i: nat)
      requires Layout() && buf.Length == NBUF
      ensures i <= NBUF
      ensures i < NBUF ==> buf[i].refcnt == 0 && !buf[i].dirty
      ensures i < NBUF ==> exists k: nat | k < NBUF && ring.order[k] == i ::
                             forall j | k < j < NBUF :: buf[ring.order[j]].refcnt > 0 || buf[ring.order[j]].dirty
      ensures i == NBUF ==> forall j | 0 <= j < NBUF :: buf[j].refcnt > 0 || buf[j].dirty
    {
      ghost var o := ring.order;
      assert ring.prev[..][Node(NBUF, o, NBUF + 1)] == Node(NBUF, o, NBUF);
      i := ring.prev[NBUF];
      ghost var k := NBUF;
      while i != NBUF
        invariant 0 <= k <= NBUF && i == Node(NBUF, o, k)
        invariant forall j | k <= j < NBUF :: buf[o[j]].refcnt > 0 || buf[o[j]].dirty
        decreases k
      {
        if buf[i].refcnt == 0 && !buf[i].dirty {
          assert o[k - 1] == i;
          return;
        }
        assert ring.prev[..][Node(NBUF, o, k)] == Node(NBUF, o, k - 1);
        i := ring.prev[i];
        k := k - 1;
      }
      forall j | 0 <= j < NBUF
        ensures buf[j].refcnt > 0 || buf[j].dirty
      {
        assert j in o;
      }
    }

    /** bget up to, not including, acquiresleep. */
    method Bget(p: Pid, b: nat) returns (ok: bool, i: nat)
      requires Valid() && sys.fault == Running && Active(sys, p) && b < disk.Length
      requires forall j: nat | j < NBUF && Caches(sys, j, b) :: p !in sys.users[j]
      modifies `sys, buf
      ensures Valid()
      ensures ok && Cached(old(sys), b) ==> CanGet(old(sys), p, b, i) && sys == DoGet(old(sys), p, i)
      ensures ok && !Cached(old(sys), b) ==> CanRecycle(old(sys), p, b, i) && sys == DoRecycle(old(sys), p, b, i)
      ensures ok && !Cached(old(sys), b) ==> exists k: nat | k < NBUF && ring.order[k] == i ::
                forall j | k < j < NBUF :: old(buf[ring.order[j]].refcnt > 0) || old(buf[ring.order[j]].dirty)
      ensures ok <==> Cached(old(sys), b) || !NoneFree(old(sys))
      ensures !ok ==> sys == old(sys).(fault := NoBuffers)
    {
      i := Lookup(b);
      if i < NBUF {
        assert Caches(sys, i, b);
        TakeGet(sys, p, b, i);
        sys := DoGet(sys, p, i);
        buf[i] := buf[i].(refcnt := buf[i].refcnt + 1);
        return true, i;
      }
      assert !Cached(sys, b);
      i := Victim();
      if i < NBUF {
        TakeRecycle(sys, p, b, i);
        sys := DoRecycle(sys, p, b, i);
        buf[i] := buf[i].(dev := 1, blockno := b, valid := false, dirty := false, refcnt := 1);
        return true, i;
      }
      TakeOutOfBuffers(sys, p, b);
      sys := sys.(fault := NoBuffers);
      ok := false;
    }

    /** acquiresleep, and iderw if the buffer is not valid. */
    method LockBuffer(p: Pid, i: nat)
      requires Valid() && i < buf.Length && CanLock(sys, p, i) && sys.buf[i].dev == 1 && (sys.buf[i].dirty ==> sys.buf[i].valid)
      requires Reachable(DoLock(sys, p, i)) && Shape(DoLock(sys, p, i))
      modifies `sys, buf, disk
      ensures Valid() && sys == DoLock(old(sys), p, i)
    {
      sys := DoLock(sys, p, i);
      buf[i] := buf[i].(holder := Some(p));
      if !buf[i].valid {
        var ok := Iderw(p, i);
      }
    }

    /** bread. The caller waits in acquiresleep while another process holds the buffer: this is
        the call that completes. */
    method Bread(p: Pid, b: nat) returns (ok: bool, i: nat)
      requires Valid() && sys.fault == Running && Active(sys, p) && b < disk.Length
      requires forall j: nat | j < NBUF && Caches(sys, j, b) :: p !in sys.users[j] && sys.buf[j].holder.None?
      modifies `sys, buf, disk
      ensures Valid()
      ensures ok ==> Took(old(sys), sys, p, b, i)
      ensures ok && !sys.booting && Home(sys, b) && b !in sys.stale ==> buf[i].data == sys.spec[b]
      ensures ok && (sys.booting || !Home(sys, b)) && b !in sys.stale ==> buf[i].data == disk[b]
      ensures ok <==> Cached(old(sys), b) || !NoneFree(old(sys))
      ensures !ok ==> sys == old(sys).(fault := NoBuffers)
    {
      ghost var s := sys;
      ok, i := Bget(p, b);
      if ok {
        BreadSteps(s, sys, p, b, i);
        LockBuffer(p, i);
      }
    }

    /** brelse. A buffer with no more references becomes the most recently used. */
    method Brelse(p: Pid, i: nat) returns (ok: bool)
      requires Valid() && sys.fault == Running && i < NBUF && p !in sys.checked
      modifies `sys, buf, ring`order, ring.next, ring.prev
      ensures Valid() && (ok <==> Holds(old(sys), p, i))
      ensures sys == if ok then DoRelease(old(sys), p, i) else old(sys)
      ensures ok && buf[i].refcnt > 0 ==> ring.order == old(ring.order)
      ensures !ok ==> ring.order == old(ring.order)
      ensures ok && buf[i].refcnt == 0 ==> exists at: nat | at < NBUF && old(ring.order)[at] == i ::
                ring.order == [i] + Without(old(ring.order), at)
    {
      if buf[i].holder != Some(p) { return false; }
      ok := true;
      ReleaseStep(sys, p, i);
      sys := DoRelease(sys, p, i);
      buf[i] := buf[i].(holder := None, refcnt := buf[i].refcnt - 1);
      if buf[i].refcnt == 0 {
        ghost var at := ring.MoveToFront(i);
        MovedMembers(old(ring.order), at);
        assert at < NBUF && old(ring.order)[at] == i;
      }
    }

    /** log_write's search of the log for a block: its entry, or n if it has none. */
    method EntryOf(b: nat) returns (k: nat)
      requires n <= LOGSIZE == block.Length
      ensures k <= n && (forall j | 0 <= j < k :: block[j] != b) && (k < n ==> block[k] == b)
    {
      k := 0;
      while k < n
        invariant k <= n
        invariant forall j | 0 <= j < k :: block[j] != b
      {
        if block[k] == b { break; }
        k := k + 1;
      }
    }

    /** log_write's update of entry k, of the log record and of the buffer's flags. */
    method PutEntry(i: nat, k: nat)
      requires i < NBUF == buf.Length && k <= n && k < LOGSIZE == block.Length
      modifies `n, `full, block, buf
      ensures block[..] == old(block[..])[k := old(buf[i]).blockno]
      ensures n == (if k == old(n) then k + 1 else old(n)) && full == (old(full) || (k == old(n) && n == LOGSIZE - 1))
      ensures buf[..] == old(buf[..])[i := old(buf[i]).(dirty := true)]
    {
      block[k] := buf[i].blockno;
      if k == n {
        n := n + 1;
        if n == LOGSIZE - 1 { full := true; }
      }
      buf[i] := buf[i].(dirty := true);
    }

    /** log_write. */
    method LogWrite(p: Pid, i: nat) returns (ok: bool)
      requires Valid() && sys.fault == Running && CanModify(sys, p, i)
      modifies `sys, `n, `full, block, buf
      ensures Valid()
      ensures ok <==> old(n) < LOGSIZE
      ensures ok ==> var c := old(sys).(checked := old(sys).checked[p := i]);
                     Shape(c) && CanLogWrite(c, p, i) && sys == DoLogWrite(c, p, i)
      ensures !ok ==> sys == old(sys).(fault := TooBig)
    {
      TakeLogWrite(sys, p, i);
      if n >= LOGSIZE {
        sys := sys.(fault := TooBig);
        return false;
      }
      if outstanding < 1 {
        assert false;
      }
      ghost var c := sys.(checked := sys.checked[p := i]);
      var k := EntryOf(buf[i].blockno);
      assert Logged(c, buf[i].blockno) <==> k < n;
      PutEntry(i, k);
      sys := DoLogWrite(c, p, i);
      ok := true;
    }

    /** One pass of begin_op's loop: it goes to sleep, or the operation begins. */
    method BeginOp(p: Pid) returns (begun: bool)
      requires Valid() && sys.fault == Running && !sys.booting && p !in sys.ops
      modifies `sys, `outstanding
      ensures Valid() && (begun <==> !committing && n < LOGSIZE)
      ensures begun ==> sys == old(sys).(ops := old(sys).ops + {p}, outstanding := old(sys).outstanding + 1)
      ensures !begun ==> sys == old(sys) && (committing || sys.ops != {})
    {
      if committing { return false; }
      if n > LOGSIZE - 1 {
        SleeperHasWaker(sys);
        return false;
      }
      ReachableStep(sys, LogModel.BeginOp(p));
      sys := sys.(ops := sys.ops + {p}, outstanding := sys.outstanding + 1);
      outstanding := outstanding + 1;
      begun := true;
    }

    /** Two breads in a row, of slot `tail` of the log and of the block that entry `tail` is for. */
    method BreadTwo(p: Pid, tail: nat) returns (ok: bool, i: nat, j: nat)
      requires Valid() && Alone(sys, p) && tail < sys.n && tail < LOGSIZE
      requires sys.phase == LogModel.WriteLog(tail) || sys.phase == Install(tail)
      requires Home(sys, sys.block[tail])
      modifies `sys, buf, disk
      ensures Valid()
      ensures ok <==> old(n) < LOGSIZE
      ensures ok ==> TookTwo(old(sys), sys, p, start + tail + 1, old(sys).block[tail], i, j)
      ensures !ok ==> sys.fault == NoBuffers
    {
      j := 0;
      assert Cached(sys, start + tail + 1) || !NoneFree(sys) <==> n < LOGSIZE by {
        if n < LOGSIZE { BufferLeft(sys); } else { FullAtFirst(sys); }
      }
      ok, i := Bread(p, start + tail + 1);
      if ok {
        j := BreadSecond(p, tail, i, old(sys));
      }
    }

    /** The second of them, which cannot fail. */
    method BreadSecond(p: Pid, tail: nat, i: nat, ghost s: Sys) returns (j: nat)
      requires Valid() && Shape(s) && Alone(s, p) && tail < s.n < LOGSIZE && Home(s, s.block[tail])
      requires s.phase == LogModel.WriteLog(tail) || s.phase == Install(tail)
      requires Took(s, sys, p, s.start + tail + 1, i)
      modifies `sys, buf, disk
      ensures Valid() && TookTwo(s, sys, p, s.start + tail + 1, s.block[tail], i, j)
    {
      assert s.users[i] + {p} == {p};
      assert Cached(sys, s.block[tail]) || !NoneFree(sys) by { EntryBufferLeft(sys, i); }
      var ok;
      ok, j := Bread(p, block[tail]);
      assert sys.users[j] == {p};
    }

    /** The two matching brelses. */
    method BrelseTwo(p: Pid, i: nat, j: nat)
      requires Valid() && sys.fault == Running && Holds(sys, p, i) && Holds(sys, p, j) && i != j && p !in sys.checked
      modifies `sys, buf, ring`order, ring.next, ring.prev
      ensures Valid() && sys == DoRelease(DoRelease(old(sys), p, j), p, i)
    {
      var ok := Brelse(p, j);
      ok := Brelse(p, i);
    }

    /** The body of write_log's loop: copy the cached block of entry `tail` to its slot on disk. */
    method WriteSlot(p: Pid, tail: nat) returns (ok: bool)
      requires Valid() && Alone(sys, p) && sys.phase == LogModel.WriteLog(tail) && tail < n
      modifies `sys, buf, disk, ring`order, ring.next, ring.prev
      ensures Valid()
      ensures ok <==> old(n) < LOGSIZE
      ensures ok ==> Alone(sys, p) && sys.phase == LogModel.WriteLog(tail + 1) && sys.n == old(sys).n && KeepsLog(old(sys), sys)
      ensures !ok ==> sys.fault == NoBuffers
    {
      ghost var s0 := sys;
      SlotInRange(s0);
      var to, from;
      ok, to, from := BreadTwo(p, tail);
      if ok { PutSlot(p, to, from, s0); }
    }

    /** Its second half, once both buffers are held. */
    method PutSlot(p: Pid, to: nat, from: nat, ghost s0: Sys)
      requires Valid() && Shape(s0) && Alone(s0, p) && s0.phase.WriteLog? && s0.phase.tail < s0.n && s0.phase.tail < LOGSIZE
      requires TookTwo(s0, sys, p, s0.start + s0.phase.tail + 1, s0.block[s0.phase.tail], to, from)
      requires sys.fault == Running && p == sys.committer && CanSlotWrite(sys, to, from) && sys.buf[to].blockno < disk.Length
      modifies `sys, buf, disk, ring`order, ring.next, ring.prev
      ensures Valid() && Alone(sys, p) && sys.phase == LogModel.WriteLog(s0.phase.tail + 1) && sys.n == s0.n && KeepsLog(s0, sys)
    {
      ghost var s2 := sys;
      SlotOut(p, to, from);
      BrelseTwo(p, to, from);
      SlotDone(s0, s2, sys, p, to, from);
    }

    /** The copy in it, from a pinned buffer to the buffer of its slot and to disk. */
    method SlotOut(p: Pid, to: nat, from: nat)
      requires Valid() && sys.fault == Running && p == sys.committer && CanSlotWrite(sys, to, from) && sys.buf[to].blockno < disk.Length
      modifies `sys, buf, disk
      ensures Valid() && sys == DoSlotWrite(old(sys), to, from)
    {
      ghost var t := DoSlotWrite(sys, to, from);
      assert Reachable(t) && Shape(t) by { TakeSlotWrite(sys, to, from); }
      CopyOut(p, to, from);
      sys := t;
    }

    /** write_log: copy modified blocks from cache to log. */
    method WriteLog(p: Pid) returns (ok: bool)
      requires Valid() && Alone(sys, p) && sys.phase == LogModel.WriteLog(0)
      modifies `sys, buf, disk, ring`order, ring.next, ring.prev
      ensures Valid()
      ensures ok <==> old(n) < LOGSIZE
      ensures ok ==> Alone(sys, p) && sys.phase == LogModel.WriteLog(n) && sys.n == old(sys).n && KeepsLog(old(sys), sys)
      ensures !ok ==> sys.fault == NoBuffers
    {
      HeaderFits(sys);
      ok := true;
      var tail := 0;
      while tail < n
        invariant tail <= n == old(n) && Valid()
        invariant Alone(sys, p) && sys.phase == LogModel.WriteLog(tail) && sys.n == old(sys).n && KeepsLog(old(sys), sys)
      {
        ok := WriteSlot(p, tail);
        if !ok { return; }
        tail := tail + 1;
      }
      LastSlotFits(sys);
    }

    /** write_head's update and bwrite of the header block. */
    method PutHeader(p: Pid, i: nat)
      requires p == sys.committer && Valid() && sys.fault == Running && CanHeadWrite(sys, i)
      modifies `sys, buf, disk
      ensures Valid() && sys == DoHeadWrite(old(sys), i)
    {
      var hb := FillHeader(buf[i].data);
      ghost var t := DoHeadWrite(sys, i);
      assert Reachable(t) && Shape(t) by { TakeHeadWrite(sys, i); }
      PutOut(p, i, hb);
      sys := t;
    }

    /** write_head. */
    method WriteHead(p: Pid)
      requires Valid() && Alone(sys, p)
      requires sys.phase == LogModel.WriteLog(n) || sys.phase == ClearHead
      modifies `sys, buf, disk, ring`order, ring.next, ring.prev
      ensures Valid() && Alone(sys, p) && sys.n == old(sys).n && KeepsLog(old(sys), sys)
      ensures sys.phase == (if old(sys).phase == ClearHead then Cleared else Committed)
    {
      ghost var s0 := sys;
      HeaderFits(s0);
      LastSlotFits(s0);
      BufferLeft(s0);
      var ok, i := Bread(p, start);
      ghost var s1 := sys;
      PutHeader(p, i);
      ok := Brelse(p, i);
      HeadDone(s0, s1, sys, p, i);
    }

    /** commit. */
    method Commit(p: Pid) returns (ok: bool)
      requires Valid() && Alone(sys, p) && sys.phase == if n > 0 then LogModel.WriteLog(0) else Committed
      modifies `sys, buf, disk, ring`order, ring.next, ring.prev
      ensures Valid()
      ensures ok <==> old(n) < LOGSIZE
      ensures ok ==> Alone(sys, p) && sys.phase == Committed && sys.n == old(sys).n && KeepsLog(old(sys), sys)
      ensures !ok ==> sys.fault == NoBuffers
    {
      ok := true;
      if n > 0 {
        ok := WriteLog(p);
        if ok { WriteHead(p); }
      }
    }

    /** The body of install_trans's loop: copy slot `tail` to the home location of its block. */
    method InstallSlot(p: Pid, tail: nat)
      requires Valid() && Alone(sys, p) && sys.phase == Install(tail) && tail < n
      modifies `sys, buf, disk, ring`order, ring.next, ring.prev
      ensures Valid()
      ensures Alone(sys, p) && sys.phase == Install(tail + 1) && sys.n == old(sys).n && KeepsLog(old(sys), sys)
    {
      ghost var s0 := sys;
      SlotInRange(s0);
      LastSlotFits(s0);
      var ok, lbuf, dbuf := BreadTwo(p, tail);
      ghost var s2 := sys;
      HomeOut(p, lbuf, dbuf);
      BrelseTwo(p, dbuf, lbuf);
      InstallDone(s0, s2, sys, p, lbuf, dbuf);
    }

    /** The copy in it, from the buffer of the slot to the buffer of the block and to disk. */
    method HomeOut(p: Pid, from: nat, to: nat)
      requires Valid() && sys.fault == Running && p == sys.committer && CanInstallWrite(sys, from, to)
      modifies `sys, buf, disk
      ensures Valid() && sys == DoInstallWrite(old(sys), from, to)
    {
      ghost var t := DoInstallWrite(sys, from, to);
      assert Reachable(t) && Shape(t) by { TakeInstallWrite(sys, from, to); }
      CopyOut(p, to, from);
      sys := t;
    }

    /** install_trans. */
    method InstallTrans(p: Pid)
      requires Valid() && Alone(sys, p) && sys.phase == Install(0)
      modifies `sys, buf, disk, ring`order, ring.next, ring.prev
      ensures Valid()
      ensures Alone(sys, p) && sys.phase == Install(n) && sys.n == old(sys).n && KeepsLog(old(sys), sys)
    {
      var tail := 0;
      while tail < n
        invariant tail <= n && Valid()
        invariant Alone(sys, p) && sys.phase == Install(tail) && sys.n == old(sys).n && KeepsLog(old(sys), sys)
      {
        InstallSlot(p, tail);
        tail := tail + 1;
      }
    }

    /** `log.lh.n = 0; write_head()` after an install. */
    method ClearLog(p: Pid)
      requires Valid() && Alone(sys, p) && sys.phase == Install(n)
      modifies `sys, `n, buf, disk, ring`order, ring.next, ring.prev
      ensures Valid()
      ensures Alone(sys, p) && sys.phase == Cleared && sys.n == 0 && KeepsLog(old(sys), sys)
    {
      ReachableStep(sys, ResetN);
      sys := sys.(n := 0, phase := ClearHead);
      n := 0;
      WriteHead(p);
    }

    /** sync, called from end_op when log.full, or by a user while no operation is active. */
    method Sync(p: Pid) returns (r: int)
      requires Valid() && sys.fault == Running
      requires (Alone(sys, p) && sys.phase == Committed && full) || (sys.phase == Quiet && sys.ops == {})
      modifies `sys, `n, buf, disk, ring`order, ring.next, ring.prev
      ensures Valid()
      ensures old(n) != LOGSIZE - 1 ==> r == -1 && sys == old(sys)
      ensures old(n) == LOGSIZE - 1 ==>
                r == 0 && Alone(sys, p) && sys.phase == Cleared && sys.n == 0 && KeepsLog(old(sys), sys)
      ensures old(sys).phase == Quiet ==> r == -1
    {
      if sys.phase == Quiet { IdleLogHasRoom(sys); }
      r := 0;
      if n < LOGSIZE - 1 { return -1; }
      if n > LOGSIZE - 1 { return -1; }
      ReachableStep(sys, LogModel.Sync);
      sys := sys.(phase := Install(0));
      InstallTrans(p);
      ClearLog(p);
    }

    /** read_head, on the buffer of the header block: the loop that copies the entries. */
    method CopyHeader(i: nat)
      requires i < buf.Length && block.Length == LOGSIZE && Word(buf[i].data, 0) <= LOGSIZE
      modifies `n, block
      ensures n == Word(buf[i].data, 0) && block[..] == HeadBlocks(buf[i].data, old(block[..]))
    {
      n := Word(buf[i].data, 0);
      var k := 0;
      while k < n
        invariant k <= n == Word(buf[i].data, 0)
        invariant forall j | 0 <= j < LOGSIZE :: block[j] == if j < k then Word(buf[i].data, 1 + j) else old(block[j])
      {
        block[k] := Word(buf[i].data, 1 + k);
        k := k + 1;
      }
    }

    method LoadHeader(i: nat)
      requires Valid() && sys.fault == Running && sys.phase.ReadHead? && HoldsHead(sys, i)
      modifies `sys, `n, block
      ensures Valid() && Word(old(sys).buf[i].data, 0) <= LOGSIZE && sys == DoReadHeader(old(sys), i)
    {
      TakeReadHeader(sys, i);
      CopyHeader(i);
      sys := DoReadHeader(sys, i);
    }

    method ReadHead(p: Pid)
      requires Valid() && Alone(sys, p) && sys.phase == LogModel.ReadHead
      modifies `sys, `n, buf, disk, block, ring`order, ring.next, ring.prev
      ensures Valid()
      ensures Alone(sys, p) && sys.phase == Install(0) && KeepsLog(old(sys).(block := sys.block), sys)
    {
      ghost var s0 := sys;
      HeaderFits(s0);
      LastSlotFits(s0);
      BufferLeft(s0);
      var ok, i := Bread(p, start);
      ghost var s1 := sys;
      LoadHeader(i);
      ok := Brelse(p, i);
      ReadHeadDone(s0, s1, sys, p, i);
    }

    /** recover_from_log: afterwards every home block holds its last committed content. */
    method RecoverFromLog(p: Pid)
      requires Valid() && Alone(sys, p) && sys.phase == LogModel.ReadHead
      modifies `sys, `n, `committing, buf, disk, block, ring`order, ring.next, ring.prev
      ensures Valid()
      ensures sys.phase == Quiet && !sys.booting && n == 0 && sys.ops == {}
              && sys.spec == old(sys).spec && sys.stale == old(sys).stale && sys.fault == Running
      ensures forall b: nat | Home(sys, b) && b !in sys.stale :: disk[b] == sys.spec[b]
    {
      ReadHead(p);
      InstallTrans(p);
      ClearLog(p);
      Done();
    }

    /** The end of end_op's commit, or of recovery. */
    method Done()
      requires Valid() && sys.fault == Running && CanFinish(sys)
      modifies `sys, `committing
      ensures Valid() && sys == old(sys).(committing := false, booting := false, phase := Quiet)
      ensures sys.n == 0 ==> forall b: nat | Home(sys, b) && b !in sys.stale :: disk[b] == sys.spec[b]
    {
      ReachableStep(sys, Finish);
      sys := sys.(committing := false, booting := false, phase := Quiet);
      committing := false;
      if sys.n == 0 { EmptyLogIsHome(sys); }
    }

    /** end_op. The last operation out commits, and installs a full log. */
    method EndOp(p: Pid) returns (ok: bool)
      requires Valid() && sys.fault == Running && p in sys.ops && p !in sys.checked && Unreferenced(sys, p)
      requires outstanding == 1 ==> Unused(sys)
      modifies `sys, `n, `outstanding, `committing, buf, disk, ring`order, ring.next, ring.prev
      ensures Valid()
      ensures ok <==> old(outstanding) > 1 || old(n) < LOGSIZE
      ensures ok ==> sys.fault == Running && sys.ops == old(sys).ops - {p} && outstanding == old(outstanding) - 1
                     && !committing && sys.spec == old(sys).spec && sys.stale == old(sys).stale
      ensures ok && outstanding > 0 ==> sys == DoEndOp(old(sys), p)
      ensures ok && outstanding == 0 ==> n == if old(n) == LOGSIZE - 1 then 0 else old(n)
      ensures ok && outstanding == 0 ==> HeadN(start, disk[..]) <= LOGSIZE
      ensures ok && outstanding == 0 ==>
                forall b: nat | Home(sys, b) && b !in sys.stale :: Recovered(start, disk[..], b) == sys.spec[b]
      ensures !ok ==> sys.fault == NoBuffers
    {
      TakeEndOp(sys, p);
      outstanding := outstanding - 1;
      if committing { assert false; }
      sys := DoEndOp(sys, p);
      ok := true;
      if outstanding == 0 {
        committing := true;
        ok := Commit(p);
        if !ok { return; }
        FullWhenDue(sys);
        if full {
          var r := Sync(p);
        }
        Done();
        Durable(sys);
      }
    }
  }

  /** Entry and slot of the running commit are a home block and a block of the log region. */
  lemma SlotInRange(s: Sys)
    requires Reachable(s) && Shape(s) && (s.phase.WriteLog? || s.phase.Install?) && s.phase.tail < s.n
    ensures s.phase.tail < LOGSIZE - 1 && Home(s, s.block[s.phase.tail])
  {
    ReachableInv(s);
  }

  /** p has come to hold buffers i of b and j of c; nothing else has changed. */
  ghost predicate TookTwo(s: Sys, t: Sys, p: Pid, b: nat, c: nat, i: nat, j: nat) {
    && i < |s.buf| == |s.users| && j < |s.buf| && i != j && |t.buf| == |s.buf|
    && t == s.(buf := t.buf, users := s.users[i := {p}][j := {p}])
    && (forall x | 0 <= x < |s.buf| && x != i && x != j :: t.buf[x] == s.buf[x])
    && Caches(t, i, b) && Holds(t, p, i) && Caches(t, j, c) && Holds(t, p, j)
  }

  lemma SlotDone(s: Sys, t: Sys, u: Sys, p: Pid, i: nat, j: nat)
    requires Shape(s) && Alone(s, p) && s.phase.WriteLog? && s.phase.tail < s.n && s.phase.tail < LOGSIZE
    requires TookTwo(s, t, p, s.start + s.phase.tail + 1, s.block[s.phase.tail], i, j)
    requires Shape(t) && CanSlotWrite(t, i, j) && t.buf[i].blockno < |t.disk|
    requires u == DoRelease(DoRelease(DoSlotWrite(t, i, j), p, j), p, i)
    ensures Alone(u, p) && u.phase == LogModel.WriteLog(s.phase.tail + 1) && u.n == s.n && KeepsLog(s, u)
  {
  }

  lemma InstallDone(s: Sys, t: Sys, u: Sys, p: Pid, i: nat, j: nat)
    requires Shape(s) && Alone(s, p) && s.phase.Install? && s.phase.tail < s.n && s.phase.tail < LOGSIZE
    requires TookTwo(s, t, p, s.start + s.phase.tail + 1, s.block[s.phase.tail], i, j)
    requires Shape(t) && CanInstallWrite(t, i, j)
    requires u == DoRelease(DoRelease(DoInstallWrite(t, i, j), p, i), p, j)
    ensures Alone(u, p) && u.phase == Install(s.phase.tail + 1) && u.n == s.n && KeepsLog(s, u)
  {
  }

  /** Block numbers fit the words of the header. */
  lemma HeaderFits(s: Sys)
    requires Reachable(s) && Shape(s)
    ensures s.n <= LOGSIZE && Representable(s)
  {
    ReachableInv(s);
  }

  /** Only a commit that has not written a slot can have LOGSIZE entries. */
  lemma LastSlotFits(s: Sys)
    requires Reachable(s) && Shape(s) && !s.phase.Quiet?
    ensures s.n < LOGSIZE || s.phase == LogModel.WriteLog(0)
  {
    ReachableInv(s);
  }

  lemma HeadDone(s: Sys, t: Sys, u: Sys, p: Pid, i: nat)
    requires Shape(s) && Alone(s, p) && Took(s, t, p, s.start, i)
    requires Shape(t) && CanHeadWrite(t, i) && u == DoRelease(DoHeadWrite(t, i), p, i)
    ensures Alone(u, p) && u.n == s.n && KeepsLog(s, u)
    ensures u.phase == if s.phase == ClearHead then Cleared else Committed
  {
    assert s.users[i] + {p} - {p} == {};
  }

  lemma ReadHeadDone(s: Sys, t: Sys, u: Sys, p: Pid, i: nat)
    requires Shape(s) && Alone(s, p) && Took(s, t, p, s.start, i) && s.phase.ReadHead?
    requires Shape(t) && u == DoRelease(DoReadHeader(t, i), p, i)
    ensures Alone(u, p) && u.phase == Install(0) && KeepsLog(s.(block := u.block), u)
  {
    assert s.users[i] + {p} - {p} == {};
  }

  lemma BreadSteps(s: Sys, t: Sys, p: Pid, b: nat, i: nat)
    requires Reachable(s) && Reachable(t) && Shape(s) && b < |s.disk| && s.fault == Running
    requires forall j: nat | j < NBUF && Caches(s, j, b) :: p !in s.users[j] && s.buf[j].holder.None?
    requires (CanGet(s, p, b, i) && t == DoGet(s, p, i)) || (CanRecycle(s, p, b, i) && t == DoRecycle(s, p, b, i))
    ensures Shape(t) && CanLock(t, p, i)
    ensures var u := DoLock(t, p, i);
            Reachable(u) && Shape(u) && Took(s, u, p, b, i)
            && (!s.booting && Home(s, b) && b !in s.stale ==> u.buf[i].data == s.spec[b])
            && ((s.booting || !Home(s, b)) && b !in s.stale ==> u.buf[i].data == s.disk[b])
            && (t.buf[i].dirty ==> t.buf[i].valid)
  {
    ReachableInv(s);
    ReachableInv(t);
    GotBuffer(s, t, p, b, i);
    assert BufOk(t.buf[i], t.users[i], |t.disk|);
    TakeLock(t, p, i);
    if !s.booting && Home(s, b) && b !in s.stale { LockedIsLogical(t, p, i); }
    if (s.booting || !Home(s, b)) && b !in s.stale { LockedIsOnDisk(t, p, i); }
  }

  /** At boot, and for blocks of the log region, the cache and the disk agree. */
  lemma LockedIsOnDisk(s: Sys, p: Pid, i: nat)
    requires Inv(s) && CanLock(s, p, i) && s.buf[i].dev == 1 && s.buf[i].blockno !in s.stale
    requires s.booting || !Home(s, s.buf[i].blockno)
    ensures DoLock(s, p, i).buf[i].data == s.disk[s.buf[i].blockno]
  {
    if !s.booting { LogBufferClean(s, i); }
  }

  lemma ReleaseStep(s: Sys, p: Pid, i: nat)
    requires Reachable(s) && Shape(s) && s.fault == Running && Holds(s, p, i) && p !in s.checked
    ensures s.buf[i].refcnt > 0
    ensures Reachable(DoRelease(s, p, i)) && Shape(DoRelease(s, p, i))
  {
    ReachableInv(s);
    assert BufOk(s.buf[i], s.users[i], |s.disk|);
    TakeRelease(s, p, i);
  }

  /** After bget the caller has a reference to a buffer of its block that nobody holds. */
  lemma GotBuffer(s: Sys, t: Sys, p: Pid, b: nat, i: nat)
    requires Inv(s) && b < |s.disk|
    requires forall j: nat | j < NBUF && Caches(s, j, b) :: p !in s.users[j] && s.buf[j].holder.None?
    requires (CanGet(s, p, b, i) && t == DoGet(s, p, i)) || (CanRecycle(s, p, b, i) && t == DoRecycle(s, p, b, i))
    ensures t == s.(buf := s.buf[i := t.buf[i]], users := s.users[i := s.users[i] + {p}])
    ensures p !in s.users[i] && Caches(t, i, b) && CanLock(t, p, i)
  {
    assert BufOk(s.buf[i], s.users[i], |s.disk|);
    if s.buf[i].refcnt == 0 { assert s.users[i] == {}; }
  }
}
