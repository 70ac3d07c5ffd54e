/** What every run of the log protocol guarantees. */
module LogTheorems {
  import opened Blocks
  import opened LogModel
  import opened LogInvariant
  import opened LogSteps

  // ---- runs ----

  /** A disk that mkfs or an earlier run can leave: the header lists distinct home blocks. */
  ghost predicate GoodDisk(start: nat, disk: seq<Block>) {
    && InDisk(start, disk) && |disk| <= UINT
    && HeadN(start, disk) < LOGSIZE
    && (forall k: nat | k < HeadN(start, disk) ::
          HeadAt(start, disk, k) < |disk| && !(start <= HeadAt(start, disk, k) < start + LOGSIZE))
    && (forall k: nat, l: nat | k < l < HeadN(start, disk) :: HeadAt(start, disk, k) != HeadAt(start, disk, l))
  }

  ghost predicate Runs(s: Sys, ls: seq<Label>)
    decreases |ls|
  {
    ls == [] || (Shape(s) && Enabled(s, ls[0]) && Runs(Next(s, ls[0]), ls[1..]))
  }

  ghost function After(s: Sys, ls: seq<Label>): (t: Sys)
    requires Runs(s, ls)
    decreases |ls|
  {
    if ls == [] then s else After(Next(s, ls[0]), ls[1..])
  }

  lemma GetStepKeeps(s: Sys, l: Label)
    requires Inv(s) && Enabled(s, l) && (l.Get? || l.Recycle? || l.OutOfBuffers?)
    ensures Inv(Next(s, l))
  {
    match l
    case Get(p, b, i) => StepGet(s, p, b, i);
    case Recycle(p, b, i) => StepRecycle(s, p, b, i);
    case OutOfBuffers(p, b) => StepQuiet(s, s.(fault := NoBuffers));
  }

  lemma HeldStepKeeps(s: Sys, l: Label)
    requires Inv(s) && Enabled(s, l) && (l.Lock? || l.Modify? || l.Release?)
    ensures Inv(Next(s, l))
  {
    match l
    case Lock(p, i) => StepLock(s, p, i);
    case Modify(p, i, data) => StepModify(s, p, i, data);
    case Release(p, i) => StepRelease(s, p, i);
  }

  lemma OpStepKeeps(s: Sys, l: Label)
    requires Inv(s) && Enabled(s, l) && (l.LogCheck? || l.LogWrite? || l.BeginOp? || l.EndOp?)
    ensures Inv(Next(s, l))
  {
    match l
    case LogCheck(p, i) => StepLogCheck(s, p, i);
    case LogWrite(p, i) => StepLogWrite(s, p, i);
    case BeginOp(p) => StepBeginOp(s, p);
    case EndOp(p) => StepEndOp(s, p);
  }

  lemma CommitStepKeeps(s: Sys, l: Label)
    requires Inv(s) && Enabled(s, l) && (l.SlotWrite? || l.HeadWrite? || l.Sync? || l.Finish?)
    ensures Inv(Next(s, l))
  {
    match l
    case SlotWrite(i, j) => StepSlotWrite(s, i, j);
    case HeadWrite(i) => if s.phase.WriteLog? { StepCommit(s, i); } else { StepClear(s, i); }
    case Sync => StepSync(s);
    case Finish => StepFinish(s);
  }

  lemma RecoveryStepKeeps(s: Sys, l: Label)
    requires Inv(s) && Enabled(s, l) && (l.InstallWrite? || l.ResetN? || l.ReadHeader? || l.Crash?)
    ensures Inv(Next(s, l))
  {
    match l
    case InstallWrite(i, j) => StepInstallWrite(s, i, j);
    case ResetN => StepResetN(s);
    case ReadHeader(i) => StepReadHeader(s, i);
    case Crash(boot) => BootedInv(s, boot);
  }

  /** Every step of every process keeps the invariant. */
  lemma StepKeeps(s: Sys, l: Label)
    requires Inv(s) && Enabled(s, l)
    ensures Inv(Next(s, l))
  {
    if l.Get? || l.Recycle? || l.OutOfBuffers? {
      GetStepKeeps(s, l);
    } else if l.Lock? || l.Modify? || l.Release? {
      HeldStepKeeps(s, l);
    } else if l.LogCheck? || l.LogWrite? || l.BeginOp? || l.EndOp? {
      OpStepKeeps(s, l);
    } else if l.SlotWrite? || l.HeadWrite? || l.Sync? || l.Finish? {
      CommitStepKeeps(s, l);
    } else {
      RecoveryStepKeeps(s, l);
    }
  }

  lemma {:induction false} RunKeeps(s: Sys, ls: seq<Label>)
    requires Inv(s) && Runs(s, ls)
    ensures Inv(After(s, ls))
    decreases |ls|
  {
    if ls != [] {
      StepKeeps(s, ls[0]);
      RunKeeps(Next(s, ls[0]), ls[1..]);
    }
  }

  lemma BootInv(start: nat, disk: seq<Block>, boot: Pid)
    requires GoodDisk(start, disk)
    ensures Inv(Booted(start, disk, boot))
  {
    var t := Booted(start, disk, boot);
    assert t.head == HeadList(start, disk);
    assert TieInv(t);
    assert HeadInv(t);
    BootedInv(t, boot);
  }

  /** How a state came about: power-on with some disk, then one step after another. */
  datatype History = PowerOn(start: nat, disk: seq<Block>, boot: Pid) | Then(before: History, l: Label)

  /** h ends in s. (Leads only passes on to Ends: a proof that just carries Reachable along is
      spared the unfolding of what a history is.) */
  ghost predicate Leads(h: History, s: Sys)
    decreases h, 1
  {
    Ends(h, s)
  }

  ghost predicate Ends(h: History, s: Sys)
    decreases h, 0
  {
    match h
    case PowerOn(start, disk, boot) => GoodDisk(start, disk) && s == Booted(start, disk, boot)
    case Then(before, l) => exists r: Sys :: Leads(before, r) && Shape(r) && Enabled(r, l) && s == Next(r, l)
  }

  ghost predicate Reachable(s: Sys) { exists h: History :: Leads(h, s) }

  lemma BootReachable(start: nat, disk: seq<Block>, boot: Pid)
    requires GoodDisk(start, disk)
    ensures Reachable(Booted(start, disk, boot))
  {
    var s := Booted(start, disk, boot);
    assert Ends(PowerOn(start, disk, boot), s);
    assert Leads(PowerOn(start, disk, boot), s);
  }

  lemma {:induction false} LeadsInv(h: History, s: Sys)
    requires Leads(h, s)
    ensures Inv(s)
  {
    assert Ends(h, s);
    match h
    case PowerOn(start, disk, boot) => BootInv(start, disk, boot);
    case Then(before, l) =>
      var r: Sys :| Leads(before, r) && Shape(r) && Enabled(r, l) && s == Next(r, l);
      LeadsInv(before, r);
      StepKeeps(r, l);
  }

  lemma ReachableInv(s: Sys)
    requires Reachable(s)
    ensures Inv(s)
  {
    var h: History :| Leads(h, s);
    LeadsInv(h, s);
  }

  lemma ReachableStep(s: Sys, l: Label)
    requires Reachable(s) && Shape(s) && Enabled(s, l)
    ensures Reachable(Next(s, l)) && Shape(Next(s, l))
  {
    var h: History :| Leads(h, s);
    LeadsInv(h, s);
    StepKeeps(s, l);
    assert Ends(Then(h, l), Next(s, l));
    assert Leads(Then(h, l), Next(s, l));
  }

  /** Every state of every run is Reachable. */
  lemma {:induction false} RunReaches(s: Sys, ls: seq<Label>)
    requires Reachable(s) && Runs(s, ls)
    ensures Reachable(After(s, ls))
    decreases |ls|
  {
    if ls != [] {
      ReachableStep(s, ls[0]);
      RunReaches(Next(s, ls[0]), ls[1..]);
    }
  }

  // ---- reads: the cache hides that home locations are stale ----

  /** What callers expect of the disk: a write is a log_write, a crash leaves what recovery gives. */
  ghost function Expect(s: Sys, l: Label, acc: seq<Block>): (r: seq<Block>)
    requires Shape(s) && Enabled(s, l)
  {
    match l
    case LogWrite(p, i) =>
      if s.buf[i].blockno < |acc| then acc[s.buf[i].blockno := s.buf[i].data] else acc
    case Crash(_) => View(s.start, s.disk)
    case _ => acc
  }

  ghost function Expected(s: Sys, ls: seq<Label>, acc: seq<Block>): (r: seq<Block>)
    requires Runs(s, ls)
    decreases |ls|
  {
    if ls == [] then acc else Expected(Next(s, ls[0]), ls[1..], Expect(s, ls[0], acc))
  }

  lemma SpecStep(s: Sys, l: Label)
    requires Shape(s) && PinInv(s) && ProtocolInv(s) && Enabled(s, l)
    ensures Next(s, l).spec == Expect(s, l, s.spec)
  {
    if l.LogWrite? {
      SpecLogWrite(s, l.p, l.i);
    } else if !l.Crash? {
      SpecKept(s, l);
    }
  }

  lemma SpecLogWrite(s: Sys, p: Pid, i: nat)
    requires Shape(s) && PinInv(s) && ProtocolInv(s) && CanLogWrite(s, p, i)
    ensures DoLogWrite(s, p, i).spec == s.spec[s.buf[i].blockno := s.buf[i].data]
  {
    LogWriteInBounds(s, p, i);
  }

  lemma SpecKept(s: Sys, l: Label)
    requires Shape(s) && Enabled(s, l) && !l.LogWrite? && !l.Crash?
    ensures Next(s, l).spec == s.spec
  {
    if l.HeadWrite? {
      SpecKeptByHead(s, l.i);
    } else if l.SlotWrite? || l.Sync? || l.InstallWrite? || l.ResetN? || l.ReadHeader? || l.Finish? {
      SpecKeptByLog(s, l);
    } else {
      SpecKeptByCache(s, l);
    }
  }

  lemma SpecKeptByLog(s: Sys, l: Label)
    requires Shape(s) && Enabled(s, l)
    requires l.SlotWrite? || l.Sync? || l.InstallWrite? || l.ResetN? || l.ReadHeader? || l.Finish?
    ensures Next(s, l).spec == s.spec
  {
  }

  lemma SpecKeptByHead(s: Sys, i: nat)
    requires Shape(s) && CanHeadWrite(s, i)
    ensures DoHeadWrite(s, i).spec == s.spec
  {
  }

  lemma SpecKeptByCache(s: Sys, l: Label)
    requires Shape(s) && Enabled(s, l)
    requires l.Get? || l.Recycle? || l.OutOfBuffers? || l.Lock? || l.Modify? || l.LogCheck? || l.Release? || l.BeginOp? || l.EndOp?
    ensures Next(s, l).spec == s.spec
  {
  }

  lemma {:induction false} SpecIsExpected(s: Sys, ls: seq<Label>)
    requires Inv(s) && Runs(s, ls)
    ensures After(s, ls).spec == Expected(s, ls, s.spec)
    decreases |ls|
  {
    if ls != [] {
      var l := ls[0];
      SpecStep(s, l);
      StepKeeps(s, l);
      SpecIsExpected(Next(s, l), ls[1..]);
    }
  }

  /** In every run, a bread that completes returns what was last logged for its block, however
      many commits its home location has missed. */
  lemma ReadsReturnLastLogged(start: nat, disk: seq<Block>, boot: Pid, ls: seq<Label>, p: Pid, i: nat)
    requires GoodDisk(start, disk) && Runs(Booted(start, disk, boot), ls)
    requires var s := After(Booted(start, disk, boot), ls);
             Shape(s) && !s.booting && Enabled(s, Lock(p, i))
             && Home(s, s.buf[i].blockno) && s.buf[i].blockno !in s.stale
    ensures var s := After(Booted(start, disk, boot), ls);
            var expected := Expected(Booted(start, disk, boot), ls, View(start, disk));
            var t := Next(s, Lock(p, i));
            s.buf[i].blockno < |expected| && t.buf[i].valid && t.buf[i].data == expected[s.buf[i].blockno]
  {
    var s0 := Booted(start, disk, boot);
    BootInv(start, disk, boot);
    RunKeeps(s0, ls);
    SpecIsExpected(s0, ls);
    LockedIsLogical(After(s0, ls), p, i);
  }

  lemma LockedIsLogical(s: Sys, p: Pid, i: nat)
    requires Inv(s) && !s.booting && CanLock(s, p, i)
    requires Home(s, s.buf[i].blockno) && s.buf[i].blockno !in s.stale
    ensures DoLock(s, p, i).buf[i].data == s.spec[s.buf[i].blockno]
  {
    var b := s.buf[i].blockno;
    assert BufOk(s.buf[i], s.users[i], |s.disk|);
    if Pinned(s, b) { PinnedIsDirty(s, i); }
  }

  /** The buffer of a pinned block is the dirty one. */
  lemma PinnedIsDirty(s: Sys, i: nat)
    requires Shape(s) && CacheInv(s) && PinInv(s) && i < NBUF && s.buf[i].dev == 1 && Pinned(s, s.buf[i].blockno)
    ensures s.buf[i].dirty
  {
    var k: nat :| PinFrom(s) <= k < s.n && k < LOGSIZE && s.block[k] == s.buf[i].blockno;
    assert BufOk(s.buf[s.pin[k]], s.users[s.pin[k]], |s.disk|);
  }

  // ---- durability ----

  /** With no operation active and no write_log under way, recovery gives exactly the logical
      disk: every commit is durable together with all earlier ones, installed or not. */
  lemma CommitsAreDurable(s: Sys, b: nat)
    requires Reachable(s) && Shape(s) && s.ops == {} && !s.phase.WriteLog?
    requires Home(s, b) && b !in s.stale
    ensures HeadN(s.start, s.disk) <= LOGSIZE && Recovered(s.start, s.disk, b) == s.spec[b]
  {
    ReachableInv(s);
    RecoveredIsSaved(s, b);
  }

  /** At every moment outside write_log recovery gives the last committed state. */
  lemma RecoveredIsSaved(s: Sys, b: nat)
    requires Shape(s) && TieInv(s) && HeadInv(s) && SavedHomeInv(s) && SavedSlotInv(s) && !s.phase.WriteLog? && Home(s, b)
    ensures Recovered(s.start, s.disk, b) == s.saved[b]
  {
    RecoveredCases(s, b);
  }

  // ---- a crash inside a commit ----

  /** The content the running commit is writing for log entry k. */
  ghost function NewContent(s: Sys, k: nat): (v: Block)
    requires Inv(s) && s.phase.WriteLog? && k < s.n
  {
    s.buf[s.pin[k]].data
  }

  /** After `tail` slot writes recovery gives the last committed state with the first
      min(tail, n_old) blocks of the old header replaced by their new contents. */
  lemma CrashInsideCommit(s: Sys, b: nat)
    requires Reachable(s) && Inv(s) && s.phase.WriteLog? && Home(s, b)
    ensures b !in s.head ==> Recovered(s.start, s.disk, b) == s.saved[b]
    ensures forall k | 0 <= k < |s.head| && s.head[k] == b ::
              Recovered(s.start, s.disk, b) == if k < s.phase.tail then NewContent(s, k) else s.saved[b]
  {
    RecoveredInCommit(s, b);
  }

  lemma RecoveredInCommit(s: Sys, b: nat)
    requires Shape(s) && PinInv(s) && TieInv(s) && HeadInv(s) && SavedHomeInv(s) && SavedSlotInv(s) && WrittenSlotInv(s)
    requires s.phase.WriteLog? && !s.booting && s.phase.tail <= s.n && Home(s, b)
    ensures b !in s.head ==> Recovered(s.start, s.disk, b) == s.saved[b]
    ensures forall k | 0 <= k < |s.head| && s.head[k] == b ::
              Recovered(s.start, s.disk, b) == if k < s.phase.tail then s.buf[s.pin[k]].data else s.saved[b]
  {
    RecoveredCases(s, b);
  }

  /** What the log entries say block b becomes when the commit completes. */
  ghost function Outcome(s: Sys, b: nat): (v: Block)
    requires Inv(s) && s.phase.WriteLog? && Home(s, b)
  {
    if Logged(s, b) then
      var k: nat :| k < s.n && k < |s.block| && s.block[k] == b;
      NewContent(s, k)
    else s.saved[b]
  }

  /** What recovery would give if the machine stopped after k slot writes of this commit. */
  ghost function Torn(s: Sys, k: nat, b: nat): (v: Block)
    requires Inv(s) && s.phase.WriteLog? && Home(s, b)
  {
    if exists h :: 0 <= h < |s.head| && h < k && s.head[h] == b then Outcome(s, b) else s.saved[b]
  }

  lemma TornIsRecovered(s: Sys, b: nat)
    requires Inv(s) && s.phase.WriteLog? && Home(s, b)
    ensures Recovered(s.start, s.disk, b) == Torn(s, s.phase.tail, b)
  {
    RecoveredInCommit(s, b);
    if b in s.head {
      var h :| 0 <= h < |s.head| && s.head[h] == b;
      TornAt(s, s.phase.tail, h);
    }
  }

  lemma OutcomeAt(s: Sys, k: nat)
    requires Inv(s) && s.phase.WriteLog? && k < s.n
    ensures Logged(s, s.block[k]) && Outcome(s, s.block[k]) == NewContent(s, k)
  {
    assert s.block[k] == s.block[k];
  }

  ghost predicate TornIsOld(s: Sys, k: nat)
    requires Inv(s) && s.phase.WriteLog?
  {
    forall b: nat | Home(s, b) :: Torn(s, k, b) == s.saved[b]
  }

  ghost predicate TornIsNew(s: Sys, k: nat)
    requires Inv(s) && s.phase.WriteLog?
  {
    forall b: nat | Home(s, b) :: Torn(s, k, b) == Outcome(s, b)
  }

  /** The commit changes block number k of the log. */
  ghost predicate Changes(s: Sys, k: int)
    requires Inv(s) && s.phase.WriteLog?
  {
    0 <= k < s.n && NewContent(s, k) != s.saved[s.block[k]]
  }

  /** The caller's condition: the commit changes no block that is already in the on-disk header,
      or it changes a single such block and no other block at all. */
  ghost predicate Safe(s: Sys)
    requires Inv(s) && s.phase.WriteLog?
  {
    || (forall k | 0 <= k < |s.head| :: !Changes(s, k))
    || (exists c :: 0 <= c < |s.head| && Changes(s, c) && forall k | 0 <= k < s.n && k != c :: !Changes(s, k))
  }

  lemma TornAt(s: Sys, k: nat, h: nat)
    requires Inv(s) && s.phase.WriteLog? && h < |s.head|
    ensures Torn(s, k, s.head[h]) == if h < k then NewContent(s, h) else s.saved[s.head[h]]
  {
    assert s.head[h] == s.block[h];
    OutcomeAt(s, h);
  }

  lemma TornIsOldWhen(s: Sys, k: nat)
    requires Inv(s) && s.phase.WriteLog?
    ensures TornIsOld(s, k) <==> forall h | 0 <= h < |s.head| && h < k :: !Changes(s, h)
  {
    if forall h | 0 <= h < |s.head| && h < k :: !Changes(s, h) {
      forall b: nat | Home(s, b)
        ensures Torn(s, k, b) == s.saved[b]
      {
        if b in s.head {
          var h :| 0 <= h < |s.head| && s.head[h] == b;
          TornAt(s, k, h);
          assert h < k ==> !Changes(s, h);
        }
      }
    } else {
      var h :| 0 <= h < |s.head| && h < k && Changes(s, h);
      TornAt(s, k, h);
      assert Torn(s, k, s.head[h]) != s.saved[s.head[h]];
    }
  }

  lemma TornVersusOutcome(s: Sys, k: nat, h: nat)
    requires Inv(s) && s.phase.WriteLog? && h < s.n
    ensures Torn(s, k, s.block[h]) == Outcome(s, s.block[h]) <==> !Changes(s, h) || (h < |s.head| && h < k)
  {
    OutcomeAt(s, h);
    if h < |s.head| { TornAt(s, k, h); } else { assert s.block[h] !in s.head; }
  }

  lemma TornIsNewWhen(s: Sys, k: nat)
    requires Inv(s) && s.phase.WriteLog?
    ensures TornIsNew(s, k) <==> forall h | 0 <= h < s.n && Changes(s, h) :: h < |s.head| && h < k
  {
    if forall h | 0 <= h < s.n && Changes(s, h) :: h < |s.head| && h < k {
      forall b: nat | Home(s, b)
        ensures Torn(s, k, b) == Outcome(s, b)
      {
        if Logged(s, b) {
          var h: nat :| h < s.n && h < |s.block| && s.block[h] == b;
          TornVersusOutcome(s, k, h);
        } else {
          UnloggedNotInHead(s, b);
        }
      }
    } else {
      var h :| 0 <= h < s.n && Changes(s, h) && !(h < |s.head| && h < k);
      TornVersusOutcome(s, k, h);
    }
  }

  lemma UnloggedNotInHead(s: Sys, b: nat)
    requires Shape(s) && HeadInv(s) && s.phase.WriteLog? && !Logged(s, b)
    ensures b !in s.head
  {
  }

  /** Some number of slot writes gives neither the old nor the new state if and only if the commit
      is not Safe; that number is one more than the first change. */
  lemma TornIffUnsafe(s: Sys) returns (k: nat)
    requires Inv(s) && s.phase.WriteLog?
    ensures Safe(s) ==> forall j: nat :: TornIsOld(s, j) || TornIsNew(s, j)
    ensures !Safe(s) ==> k <= |s.head| && !TornIsOld(s, k) && !TornIsNew(s, k)
  {
    k := 0;
    if Safe(s) {
      forall j: nat
        ensures TornIsOld(s, j) || TornIsNew(s, j)
      {
        SafeIsWhole(s, j);
      }
    } else {
      var c :| 0 <= c < |s.head| && Changes(s, c);
      var d := FirstChange(s, c);
      assert !(forall k | 0 <= k < s.n && k != d :: !Changes(s, k));
      var e :| 0 <= e < s.n && e != d && Changes(s, e);
      k := d + 1;
      TornIsOldWhen(s, k);
      TornIsNewWhen(s, k);
    }
  }

  lemma SafeIsWhole(s: Sys, k: nat)
    requires Inv(s) && s.phase.WriteLog? && Safe(s)
    ensures TornIsOld(s, k) || TornIsNew(s, k)
  {
    TornIsOldWhen(s, k);
    TornIsNewWhen(s, k);
  }

  lemma {:induction false} FirstChange(s: Sys, c: nat) returns (d: nat)
    requires Inv(s) && s.phase.WriteLog? && c < |s.head| && Changes(s, c)
    ensures d <= c && Changes(s, d) && forall k | 0 <= k < d :: !Changes(s, k)
    decreases c
  {
    if k :| 0 <= k < c && Changes(s, k) {
      d := FirstChange(s, k);
    } else {
      d := c;
    }
  }

  /** Once the header is written recovery gives the new state. */
  lemma CommitPoint(s: Sys, i: nat, b: nat)
    requires Inv(s) && s.phase.WriteLog? && CanHeadWrite(s, i) && Home(s, b)
    ensures var t := DoHeadWrite(s, i);
            Inv(t) && Recovered(t.start, t.disk, b) == t.saved[b] && (b !in s.stale ==> t.saved[b] == s.spec[b])
  {
    StepCommit(s, i);
    RecoveredIsSaved(DoHeadWrite(s, i), b);
  }

  // ---- a crash during install or recovery ----

  /** While sync installs, and while recovery runs, no crash changes what recovery gives. */
  lemma CrashKeepsSaved(s: Sys, boot: Pid, b: nat)
    requires Inv(s) && !s.phase.WriteLog? && Home(s, b)
    ensures Booted(s.start, s.disk, boot).saved[b] == s.saved[b]
  {
    RecoveredIsSaved(s, b);
    ViewAt(s.start, s.disk, b);
  }

  /** The run stays inside recovery, or ends with its last step. */
  ghost predicate Recovering(s: Sys, ls: seq<Label>)
    requires Runs(s, ls)
    decreases |ls|
  {
    s.booting && (|ls| <= 1 || Recovering(Next(s, ls[0]), ls[1..]))
  }

  lemma RecoveryStepSaved(s: Sys, l: Label, b: nat)
    requires Inv(s) && s.booting && Enabled(s, l) && Home(s, b)
    ensures Next(s, l).saved[b] == s.saved[b] && Next(s, l).start == s.start && |Next(s, l).disk| == |s.disk|
  {
    if l.Crash? { CrashKeepsSaved(s, l.boot, b); } else { RunningStepSaved(s, l); }
  }

  lemma RunningStepSaved(s: Sys, l: Label)
    requires Shape(s) && Enabled(s, l) && !l.Crash? && !s.phase.WriteLog?
    ensures Next(s, l).saved == s.saved && Next(s, l).start == s.start && |Next(s, l).disk| == |s.disk|
  {
    if l.Get? || l.Recycle? || l.OutOfBuffers? || l.Lock? || l.Modify? || l.Release? || l.LogCheck? || l.LogWrite? {
      CacheStepSaved(s, l);
    }
  }

  lemma CacheStepSaved(s: Sys, l: Label)
    requires Shape(s) && Enabled(s, l)
    requires l.Get? || l.Recycle? || l.OutOfBuffers? || l.Lock? || l.Modify? || l.Release? || l.LogCheck? || l.LogWrite?
    ensures Next(s, l).saved == s.saved && Next(s, l).start == s.start && |Next(s, l).disk| == |s.disk|
  {
  }

  /** Recovery crashed any number of times, at any points, ends with the same home blocks:
      those of the last committed state. */
  lemma {:induction false} RecoveryIsIdempotent(s: Sys, ls: seq<Label>, b: nat)
    requires Inv(s) && Runs(s, ls) && Recovering(s, ls) && Home(s, b)
    ensures var t := After(s, ls);
            |t.disk| == |s.disk| && (!t.booting ==> t.disk[b] == s.saved[b])
    decreases |ls|
  {
    if ls != [] {
      StepKeeps(s, ls[0]);
      RecoveryStepSaved(s, ls[0], b);
      var t := Next(s, ls[0]);
      if |ls| > 1 {
        RecoveryIsIdempotent(t, ls[1..], b);
      } else if !t.booting {
        RecoveryEnds(s, ls[0], b);
      }
    }
  }

  lemma RecoveryEnds(s: Sys, l: Label, b: nat)
    requires Inv(s) && s.booting && Enabled(s, l) && Home(s, b) && !Next(s, l).booting
    ensures Next(s, l).disk[b] == s.saved[b]
  {
    assert l.Finish?;
    assert b !in s.head;
  }

  // ---- counting and the operation protocol ----

  /** `outstanding` counts the operations; a commit runs alone: no operation, no log_write and
      no unlogged change is in progress; and the panics of end_op and log_write about the
      protocol, and an index past `lh.block`, cannot occur. */
  lemma ProtocolHolds(s: Sys)
    requires Reachable(s)
    ensures s.outstanding == |s.ops|
    ensures s.committing ==> s.outstanding == 0 && s.checked == map[] && s.tainted == {}
    ensures s.n <= LOGSIZE
    ensures s.fault !in {WasCommitting, OutsideTrans, Overrun}
  {
    ReachableInv(s);
  }

  /** Each block has at most one buffer, and outside an install the dirty buffers are exactly
      those of `lh.block[0..n)`. */
  lemma DirtyIsLogged(s: Sys, i: nat)
    requires Reachable(s) && i < |s.buf| && s.buf[i].dev == 1 && !s.booting && !s.phase.Install?
    ensures s.buf[i].dirty <==> Logged(s, s.buf[i].blockno)
    ensures forall j | 0 <= j < |s.buf| && j != i && s.buf[j].dev == 1 :: s.buf[j].blockno != s.buf[i].blockno
  {
    ReachableInv(s);
    if s.buf[i].dirty {
      assert s.block[s.entry[i]] == s.buf[i].blockno;
    }
    if Logged(s, s.buf[i].blockno) { LoggedIsDirty(s, i); }
  }

  /** A commit of LOGSIZE blocks cannot write a single slot: every buffer is pinned, so bget
      finds none and panics. No slot is written past the log region. */
  lemma FullLogCannotCommit(s: Sys, i: nat, j: nat)
    requires Reachable(s) && Shape(s) && s.phase.WriteLog?
    ensures s.n == LOGSIZE ==> !CanSlotWrite(s, i, j) && !CanHeadWrite(s, i) && s.phase.tail == 0
                               && !Cached(s, s.start + 1) && NoneFree(s)
    ensures CanSlotWrite(s, i, j) ==> s.buf[i].blockno < s.start + LOGSIZE
  {
    ReachableInv(s);
    if s.n == LOGSIZE {
      forall x | 0 <= x < NBUF
        ensures s.buf[x].dirty
      {
        if !s.buf[x].dirty { CleanBufferMeansRoom(s, x); }
      }
      forall x: nat | x < NBUF
        ensures !Caches(s, x, s.start + 1) && !Caches(s, x, s.start)
      {
        if !Home(s, s.buf[x].blockno) { LogBufferClean(s, x); }
      }
    }
  }

  /** A pass of begin_op's loop that goes to sleep has someone to wake it: the process that commits,
      or one whose operation has not ended. */
  lemma SleeperHasWaker(s: Sys)
    requires Reachable(s) && Shape(s) && !s.booting && (s.committing || s.n > LOGSIZE - 1)
    ensures s.committing || s.ops != {}
  {
    ReachableInv(s);
  }

  /** While no operation is active the log has room, so a call to sync finds n != LOGSIZE-1. */
  lemma IdleLogHasRoom(s: Sys)
    requires Reachable(s) && s.phase.Quiet? && s.ops == {}
    ensures s.n <= LOGSIZE - 2
  {
    ReachableInv(s);
  }
}
