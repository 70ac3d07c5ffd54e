/** The write-ahead log over the buffer cache, as a state machine.

    Any number of processes run file-system operations; one of them commits. A step is one
    critical section of bio.c or log.c, one locked access to a buffer, or one disk write, so
    every interleaving of the processes is a run, and a crash may come between any two steps.
 */
module LogModel {
  import opened Common
  import opened Blocks

  const NBUF: nat := 30
  const LOGSIZE: nat := 30

  type Pid = nat

  /** `struct buf`, with B_VALID and B_DIRTY as two booleans and the sleep-lock as its holder. */
  datatype Buf = Buf(dev: nat, blockno: nat, valid: bool, dirty: bool, refcnt: nat,
                     holder: Option<Pid>, data: Block)

  /** How far the process that commits (or recovers) has come. */
  datatype Phase =
    | Quiet
    | WriteLog(tail: nat)
    | Committed
    | Install(tail: nat)
    | ClearHead
    | Cleared
    | ReadHead

  /** Why a run stopped: the kernel's panics, and an index outside `lh.block`. */
  datatype Fault = Running | NoBuffers | TooBig | OutsideTrans | WasCommitting | Overrun

  datatype Sys = Sys(
    // the device
    disk: seq<Block>,
    // bcache.buf
    buf: seq<Buf>,
    // struct log
    start: nat, outstanding: int, committing: bool, full: bool, n: nat, block: seq<nat>,
    // the processes: those between begin_op and end_op, those that passed the checks of
    // log_write on a buffer, and the one running commit, sync or recovery
    ops: set<Pid>, checked: map<Pid, nat>, phase: Phase, committer: Pid, booting: bool, fault: Fault,
    // bookkeeping the kernel does not have: who counted a reference to each buffer, buffers
    // modified since their last log_write, blocks released in that condition, the contents
    // last logged for every block, what recovery of the last committed log gives, the buffer
    // pinned by each log entry, the log entry of each pinned buffer, and the block numbers
    // in the on-disk header
    users: seq<set<Pid>>, tainted: set<nat>, stale: set<nat>, spec: seq<Block>, saved: seq<Block>,
    pin: seq<nat>, entry: seq<nat>, head: seq<nat>)

  // ---- the on-disk log ----

  predicate Home(s: Sys, b: nat) { b < |s.disk| && !(s.start <= b < s.start + LOGSIZE) }

  predicate InDisk(start: nat, disk: seq<Block>) { start + LOGSIZE < |disk| }

  function HeadN(start: nat, disk: seq<Block>): (n: nat)
    requires InDisk(start, disk)
  {
    Word(disk[start], 0)
  }

  function HeadAt(start: nat, disk: seq<Block>, k: nat): (b: nat)
    requires InDisk(start, disk) && k < LOGSIZE
  {
    Word(disk[start], 1 + k)
  }

  /** The block numbers in the on-disk header. */
  function HeadList(start: nat, disk: seq<Block>): (r: seq<nat>)
    requires InDisk(start, disk)
    ensures HeadN(start, disk) <= LOGSIZE ==> |r| == HeadN(start, disk)
    ensures forall k: nat | k < |r| :: k < LOGSIZE && r[k] == HeadAt(start, disk, k)
  {
    seq(if HeadN(start, disk) <= LOGSIZE then HeadN(start, disk) else 0,
        k requires 0 <= k < LOGSIZE => HeadAt(start, disk, k))
  }

  /** `hb->n = n` and `hb->block[i] = block[i]` for i < n, on top of what the block held. */
  function PutHead(b: Block, n: nat, block: seq<nat>, k: nat): (r: Block)
    requires k <= n <= LOGSIZE <= |block|
    requires forall i | 0 <= i < n :: block[i] < UINT
  {
    if k == 0 then PutWord(b, 0, n) else PutWord(PutHead(b, n, block, k - 1), k, block[k - 1])
  }

  lemma {:induction false} PutHeadWords(b: Block, n: nat, block: seq<nat>, k: nat)
    requires k <= n <= LOGSIZE <= |block|
    requires forall i | 0 <= i < n :: block[i] < UINT
    ensures Word(PutHead(b, n, block, k), 0) == n
    ensures forall i: nat | i < k :: Word(PutHead(b, n, block, k), 1 + i) == block[i]
  {
    if k > 0 { PutHeadWords(b, n, block, k - 1); }
  }

  /** What home block b holds after the first k log slots are copied home in order. */
  function Replay(start: nat, disk: seq<Block>, b: nat, k: nat): (v: Block)
    requires InDisk(start, disk) && b < |disk| && k <= LOGSIZE
  {
    if k == 0 then disk[b]
    else if HeadAt(start, disk, k - 1) == b then disk[start + k]
    else Replay(start, disk, b, k - 1)
  }

  /** What block b holds after recovery from a crash that leaves this disk. */
  function Recovered(start: nat, disk: seq<Block>, b: nat): (v: Block)
    requires InDisk(start, disk) && b < |disk| && HeadN(start, disk) <= LOGSIZE
  {
    Replay(start, disk, b, HeadN(start, disk))
  }

  // ---- steps ----

  datatype Label =
    | Get(p: Pid, b: nat, i: nat)
    | Recycle(p: Pid, b: nat, i: nat)
    | OutOfBuffers(p: Pid, b: nat)
    | Lock(p: Pid, i: nat)
    | Modify(p: Pid, i: nat, data: Block)
    | LogCheck(p: Pid, i: nat)
    | LogWrite(p: Pid, i: nat)
    | Release(p: Pid, i: nat)
    | BeginOp(p: Pid)
    | EndOp(p: Pid)
    | SlotWrite(i: nat, j: nat)
    | HeadWrite(i: nat)
    | Sync
    | InstallWrite(i: nat, j: nat)
    | ResetN
    | ReadHeader(i: nat)
    | Finish
    | Crash(boot: Pid)

  predicate Caches(s: Sys, i: nat, b: nat) {
    i < |s.buf| && s.buf[i].dev == 1 && s.buf[i].blockno == b
  }

  predicate Cached(s: Sys, b: nat) { exists i: nat | i < |s.buf| :: Caches(s, i, b) }

  predicate Holds(s: Sys, p: Pid, i: nat) { i < |s.buf| && s.buf[i].holder == Some(p) }

  /** log_write finds the block among the first n entries (absorption). */
  predicate Logged(s: Sys, b: nat) { exists k: nat | k < s.n && k < |s.block| :: s.block[k] == b }

  predicate Shape(s: Sys) {
    && |s.buf| == NBUF && |s.users| == NBUF
    && |s.block| == LOGSIZE && |s.pin| == LOGSIZE && |s.entry| == NBUF
    && InDisk(s.start, s.disk)
    && |s.spec| == |s.disk| && |s.saved| == |s.disk|
    && |s.disk| <= UINT
  }

  /** Before recovery has finished only the process that runs it is active. */
  predicate Active(s: Sys, p: Pid) { s.booting ==> p == s.committer }

  predicate NoneFree(s: Sys) { forall i | 0 <= i < |s.buf| :: s.buf[i].refcnt > 0 || s.buf[i].dirty }

  predicate Unreferenced(s: Sys, p: Pid) { forall i | 0 <= i < |s.users| :: p !in s.users[i] }

  predicate Representable(s: Sys) { forall k | 0 <= k < s.n && k < |s.block| :: s.block[k] < UINT }

  // bget, block cached: count a reference.
  predicate CanGet(s: Sys, p: Pid, b: nat, i: nat)
    requires Shape(s)
  {
    Active(s, p) && Caches(s, i, b) && p !in s.users[i]
  }

  function DoGet(s: Sys, p: Pid, i: nat): (r: Sys)
    requires Shape(s) && i < NBUF
  {
    s.(buf := s.buf[i := s.buf[i].(refcnt := s.buf[i].refcnt + 1)],
       users := s.users[i := s.users[i] + {p}])
  }

  // bget, block not cached: take an unreferenced clean buffer.
  predicate CanRecycle(s: Sys, p: Pid, b: nat, i: nat)
    requires Shape(s)
  {
    Active(s, p) && b < |s.disk| && !Cached(s, b) && i < NBUF && s.buf[i].refcnt == 0 && !s.buf[i].dirty
  }

  function DoRecycle(s: Sys, p: Pid, b: nat, i: nat): (r: Sys)
    requires Shape(s) && i < NBUF
  {
    s.(buf := s.buf[i := s.buf[i].(dev := 1, blockno := b, valid := false, dirty := false, refcnt := 1)],
       users := s.users[i := {p}])
  }

  // acquiresleep, and iderw to read the block when it is not valid.
  predicate CanLock(s: Sys, p: Pid, i: nat)
    requires Shape(s)
  {
    i < NBUF && p in s.users[i] && s.buf[i].holder.None? && s.buf[i].blockno < |s.disk|
  }

  function DoLock(s: Sys, p: Pid, i: nat): (r: Sys)
    requires Shape(s) && i < NBUF && s.buf[i].blockno < |s.disk|
  {
    s.(buf := s.buf[i := s.buf[i].(holder := Some(p), valid := true,
                                   data := if s.buf[i].valid then s.buf[i].data else s.disk[s.buf[i].blockno])])
  }

  // The caller changes b->data inside an operation.
  predicate CanModify(s: Sys, p: Pid, i: nat)
    requires Shape(s)
  {
    p in s.ops && p !in s.checked && Holds(s, p, i) && Home(s, s.buf[i].blockno)
  }

  function DoModify(s: Sys, i: nat, data: Block): (r: Sys)
    requires Shape(s) && i < NBUF
  {
    s.(buf := s.buf[i := s.buf[i].(data := data)], tainted := s.tainted + {i})
  }

  // log_write: the two checks, made without the lock.
  function DoLogCheck(s: Sys, p: Pid, i: nat): (r: Sys) {
    if s.n >= LOGSIZE then s.(fault := TooBig)
    else if s.outstanding < 1 then s.(fault := OutsideTrans)
    else s.(checked := s.checked[p := i])
  }

  // log_write: the locked part.
  predicate CanLogWrite(s: Sys, p: Pid, i: nat)
    requires Shape(s)
  {
    p in s.checked && s.checked[p] == i && i < NBUF && s.buf[i].blockno < |s.disk|
  }

  /** The buffer is pinned and what it holds is the block's logged content. */
  function Marked(s: Sys, p: Pid, i: nat): (r: Sys)
    requires Shape(s) && i < NBUF && s.buf[i].blockno < |s.disk|
  {
    s.(buf := s.buf[i := s.buf[i].(dirty := true)], checked := s.checked - {p},
       tainted := s.tainted - {i}, stale := s.stale - {s.buf[i].blockno},
       spec := s.spec[s.buf[i].blockno := s.buf[i].data])
  }

  function Appended(s: Sys, i: nat): (r: Sys)
    requires Shape(s) && i < NBUF && s.n < LOGSIZE
  {
    s.(block := s.block[s.n := s.buf[i].blockno], n := s.n + 1, full := s.full || s.n + 1 == LOGSIZE - 1,
       pin := s.pin[s.n := i], entry := s.entry[i := s.n])
  }

  function DoLogWrite(s: Sys, p: Pid, i: nat): (r: Sys)
    requires Shape(s) && i < NBUF && s.buf[i].blockno < |s.disk|
  {
    if Logged(s, s.buf[i].blockno) then Marked(s, p, i)
    else if s.n >= LOGSIZE then s.(fault := Overrun)
    else Marked(Appended(s, i), p, i)
  }

  // brelse, not from inside log_write. A buffer released with unlogged changes makes its block stale.
  function DoRelease(s: Sys, p: Pid, i: nat): (r: Sys)
    requires Shape(s) && i < NBUF
  {
    s.(buf := s.buf[i := s.buf[i].(holder := None,
                                   refcnt := if s.buf[i].refcnt == 0 then 0 else s.buf[i].refcnt - 1)],
       users := s.users[i := s.users[i] - {p}],
       tainted := s.tainted - {i},
       stale := if i in s.tainted then s.stale + {s.buf[i].blockno} else s.stale)
  }

  // end_op, first critical section.
  function DoEndOp(s: Sys, p: Pid): (r: Sys) {
    var t := s.(ops := s.ops - {p}, outstanding := s.outstanding - 1);
    if s.committing then t.(fault := WasCommitting)
    else if t.outstanding == 0
    then t.(committing := true, committer := p, phase := if s.n > 0 then WriteLog(0) else Committed)
    else t
  }

  /** The committer holds the buffer of slot `tail` and the buffer of the block it is for. */
  predicate HoldsSlot(s: Sys, tail: nat, i: nat, j: nat)
    requires Shape(s)
  {
    && tail < s.n && tail < LOGSIZE
    && Holds(s, s.committer, i) && Caches(s, i, s.start + tail + 1)
    && Holds(s, s.committer, j) && Caches(s, j, s.block[tail]) && s.block[tail] < |s.disk|
  }

  predicate HoldsHead(s: Sys, i: nat)
    requires Shape(s)
  {
    Holds(s, s.committer, i) && Caches(s, i, s.start)
  }

  // write_log, one slot.
  predicate CanSlotWrite(s: Sys, i: nat, j: nat)
    requires Shape(s)
  {
    s.phase.WriteLog? && HoldsSlot(s, s.phase.tail, i, j)
  }

  /** iderw on a buffer with B_DIRTY set: the block goes to disk, B_DIRTY is cleared. */
  function Written(s: Sys, i: nat, data: Block): (r: Sys)
    requires Shape(s) && i < NBUF && s.buf[i].blockno < |s.disk|
  {
    s.(buf := s.buf[i := s.buf[i].(data := data, valid := true, dirty := false)],
       disk := s.disk[s.buf[i].blockno := data])
  }

  function DoSlotWrite(s: Sys, i: nat, j: nat): (r: Sys)
    requires Shape(s) && CanSlotWrite(s, i, j) && s.buf[i].blockno < |s.disk|
  {
    Written(s, i, s.buf[j].data).(phase := WriteLog(s.phase.tail + 1))
  }

  // write_head, which ends a commit or clears the log.
  predicate CanHeadWrite(s: Sys, i: nat)
    requires Shape(s)
  {
    && ((s.phase.WriteLog? && s.phase.tail == s.n) || s.phase.ClearHead?)
    && HoldsHead(s, i) && s.n <= LOGSIZE && Representable(s)
  }

  ghost function View(start: nat, disk: seq<Block>): (v: seq<Block>)
    requires InDisk(start, disk)
    ensures |v| == |disk|
  {
    if HeadN(start, disk) <= LOGSIZE
    then seq(|disk|, b requires 0 <= b < |disk| => Recovered(start, disk, b))
    else disk
  }

  lemma ViewAt(start: nat, disk: seq<Block>, b: nat)
    requires InDisk(start, disk) && HeadN(start, disk) <= LOGSIZE && b < |disk|
    ensures View(start, disk)[b] == Recovered(start, disk, b)
  {
  }

  ghost function DoHeadWrite(s: Sys, i: nat): (r: Sys)
    requires Shape(s) && CanHeadWrite(s, i)
  {
    var t := Written(s, i, PutHead(s.buf[i].data, s.n, s.block, s.n));
    if s.phase.WriteLog? then t.(phase := Committed, head := s.block[..s.n], saved := View(t.start, t.disk))
    else t.(phase := Cleared, head := s.block[..s.n])
  }

  // install_trans, one slot.
  predicate CanInstallWrite(s: Sys, i: nat, j: nat)
    requires Shape(s)
  {
    s.phase.Install? && HoldsSlot(s, s.phase.tail, i, j)
  }

  function DoInstallWrite(s: Sys, i: nat, j: nat): (r: Sys)
    requires Shape(s) && CanInstallWrite(s, i, j)
  {
    Written(s, j, s.buf[i].data).(phase := Install(s.phase.tail + 1))
  }

  /** read_head's copy of the first n entries into `lh.block`. */
  function HeadBlocks(d: Block, was: seq<nat>): (r: seq<nat>)
    requires |was| == LOGSIZE
    ensures |r| == LOGSIZE
    ensures forall k | 0 <= k < LOGSIZE :: r[k] == if k < Word(d, 0) then Word(d, 1 + k) else was[k]
  {
    seq(LOGSIZE, k requires 0 <= k < LOGSIZE => if k < Word(d, 0) then Word(d, 1 + k) else was[k])
  }

  function DoReadHeader(s: Sys, i: nat): (r: Sys)
    requires Shape(s) && i < NBUF
  {
    s.(n := Word(s.buf[i].data, 0), phase := Install(0), block := HeadBlocks(s.buf[i].data, s.block))
  }

  predicate CanFinish(s: Sys) {
    s.phase.Cleared? || (s.phase.Committed? && !(s.full && s.n == LOGSIZE - 1))
  }

  function Fresh(): (b: Buf) { Buf(0, 0, false, false, 0, None, Zeroed()) }

  /** Power-on: the disk is kept, memory is not, and one process starts recover_from_log. */
  ghost function Booted(start: nat, disk: seq<Block>, boot: Pid): (r: Sys)
    requires InDisk(start, disk)
  {
    Sys(disk, seq(NBUF, _ => Fresh()), start, 0, false, false, 0, seq(LOGSIZE, _ => 0),
        {}, map[], ReadHead, boot, true, Running,
        seq(NBUF, _ => {}), {}, {}, View(start, disk), View(start, disk),
        seq(LOGSIZE, _ => 0), seq(NBUF, _ => 0), HeadList(start, disk))
  }

  ghost predicate Enabled(s: Sys, l: Label)
    requires Shape(s)
  {
    l.Crash? || (s.fault == Running && match l
      case Get(p, b, i) => CanGet(s, p, b, i)
      case Recycle(p, b, i) => CanRecycle(s, p, b, i)
      case OutOfBuffers(p, b) => Active(s, p) && b < |s.disk| && !Cached(s, b) && NoneFree(s)
      case Lock(p, i) => CanLock(s, p, i)
      case Modify(p, i, data) => CanModify(s, p, i)
      case LogCheck(p, i) => CanModify(s, p, i)
      case LogWrite(p, i) => CanLogWrite(s, p, i)
      case Release(p, i) => Holds(s, p, i) && p !in s.checked
      // begin_op leaves its loop
      case BeginOp(p) => !s.booting && p !in s.ops && !s.committing && s.n <= LOGSIZE - 1
      // the caller of end_op has released its buffers
      case EndOp(p) => p in s.ops && p !in s.checked && Unreferenced(s, p)
      case SlotWrite(i, j) => CanSlotWrite(s, i, j) && s.buf[i].blockno < |s.disk|
      case HeadWrite(i) => CanHeadWrite(s, i)
      // sync, entered when log.full; it goes on only when n == LOGSIZE-1
      case Sync => s.phase.Committed? && s.full && s.n == LOGSIZE - 1
      case InstallWrite(i, j) => CanInstallWrite(s, i, j)
      case ResetN => s.phase.Install? && s.phase.tail == s.n
      case ReadHeader(i) => s.phase.ReadHead? && HoldsHead(s, i) && Word(s.buf[i].data, 0) <= LOGSIZE
      // the last critical section of end_op, or the end of recover_from_log
      case Finish => CanFinish(s)
      case Crash(_) => true)
  }

  ghost function Next(s: Sys, l: Label): (r: Sys)
    requires Shape(s) && Enabled(s, l)
  {
    match l
    case Get(p, b, i) => DoGet(s, p, i)
    case Recycle(p, b, i) => DoRecycle(s, p, b, i)
    case OutOfBuffers(p, b) => s.(fault := NoBuffers)
    case Lock(p, i) => DoLock(s, p, i)
    case Modify(p, i, data) => DoModify(s, i, data)
    case LogCheck(p, i) => DoLogCheck(s, p, i)
    case LogWrite(p, i) => DoLogWrite(s, p, i)
    case Release(p, i) => DoRelease(s, p, i)
    case BeginOp(p) => s.(ops := s.ops + {p}, outstanding := s.outstanding + 1)
    case EndOp(p) => DoEndOp(s, p)
    case SlotWrite(i, j) => DoSlotWrite(s, i, j)
    case HeadWrite(i) => DoHeadWrite(s, i)
    case Sync => s.(phase := Install(0))
    case InstallWrite(i, j) => DoInstallWrite(s, i, j)
    case ResetN => s.(n := 0, phase := ClearHead)
    case ReadHeader(i) => DoReadHeader(s, i)
    case Finish => s.(committing := false, booting := false, phase := Quiet)
    case Crash(boot) => Booted(s.start, s.disk, boot)
  }
}
