/** Every step of the log protocol keeps the invariant. */
module LogSteps {
  import opened Blocks
  import opened LogModel
  import opened LogInvariant

  lemma StepGet(s: Sys, p: Pid, b: nat, i: nat)
    requires Inv(s) && CanGet(s, p, b, i)
    ensures Inv(DoGet(s, p, i))
  {
    var t := DoGet(s, p, i);
    GetCache(s, p, b, i);
    GetProtocol(s, p, b, i);
    GetPin(s, i, p);
    GetData(s, p, i);
    TieFrame(s, t);
    HeadFrame(s, t);
    SavedFrame(s, t);
    WrittenSlotFrame(s, t);
  }

  lemma StepRecycle(s: Sys, p: Pid, b: nat, i: nat)
    requires Inv(s) && CanRecycle(s, p, b, i)
    ensures Inv(DoRecycle(s, p, b, i))
  {
    var t := DoRecycle(s, p, b, i);
    RecycleCache(s, p, b, i);
    RecycleProtocol(s, p, b, i);
    RecyclePin(s, p, b, i);
    RecycleData(s, p, b, i);
    TieFrame(s, t);
    HeadFrame(s, t);
    SavedFrame(s, t);
    WrittenSlotFrame(s, t);
  }

  lemma StepLock(s: Sys, p: Pid, i: nat)
    requires Inv(s) && CanLock(s, p, i)
    ensures Inv(DoLock(s, p, i))
  {
    var t := DoLock(s, p, i);
    assert BufOk(s.buf[i], s.users[i], |s.disk|);
    LockCache(s, p, i);
    LockProtocol(s, p, i);
    LockPin(s, p, i);
    LockData(s, p, i);
    TieFrame(s, t);
    HeadFrame(s, t);
    SavedFrame(s, t);
    WrittenSlotFrame(s, t);
  }

  lemma StepModify(s: Sys, p: Pid, i: nat, d: Block)
    requires Inv(s) && CanModify(s, p, i)
    ensures Inv(DoModify(s, i, d))
  {
    var t := DoModify(s, i, d);
    ModifyCache(s, p, i, d);
    ModifyProtocol(s, p, i, d);
    ModifyPin(s, i, d);
    ModifyData(s, p, i, d);
    TieFrame(s, t);
    HeadFrame(s, t);
    SavedFrame(s, t);
    WrittenSlotFrame(s, t);
  }

  lemma StepRelease(s: Sys, p: Pid, i: nat)
    requires Inv(s) && Holds(s, p, i) && p !in s.checked
    ensures Inv(DoRelease(s, p, i))
  {
    var t := DoRelease(s, p, i);
    ReleaseCache(s, p, i);
    ReleaseProtocol(s, p, i);
    ReleasePin(s, p, i);
    ReleaseData(s, p, i);
    TieFrame(s, t);
    HeadFrame(s, t);
    SavedFrame(s, t);
    WrittenSlotFrame(s, t);
  }

  /** A step that touches neither the buffers, the disk, the log nor the phase. */
  lemma StepQuiet(s: Sys, t: Sys)
    requires Inv(s) && Shape(t) && ProtocolInv(t)
    requires t == s.(ops := t.ops, outstanding := t.outstanding, checked := t.checked, fault := t.fault)
    requires t.ops == {} ==> s.ops == {}
    ensures Inv(t)
  {
    HomeFrame(s, t);
    TieFrame(s, t);
    HeadFrame(s, t);
    SavedFrame(s, t);
    WrittenSlotFrame(s, t);
  }

  lemma StepLogCheck(s: Sys, p: Pid, i: nat)
    requires Inv(s) && CanModify(s, p, i)
    ensures Inv(DoLogCheck(s, p, i))
  {
    LogCheckProtocol(s, p, i);
    StepQuiet(s, DoLogCheck(s, p, i));
  }

  lemma StepBeginOp(s: Sys, p: Pid)
    requires Inv(s) && !s.booting && p !in s.ops && !s.committing
    ensures Inv(s.(ops := s.ops + {p}, outstanding := s.outstanding + 1))
  {
    var t := s.(ops := s.ops + {p}, outstanding := s.outstanding + 1);
    assert ProtocolInv(t);
    StepQuiet(s, t);
  }

  /** log absorption. */
  lemma StepAbsorb(s: Sys, p: Pid, i: nat)
    requires Inv(s) && CanLogWrite(s, p, i) && Logged(s, s.buf[i].blockno)
    ensures Inv(Marked(s, p, i))
  {
    var t := Marked(s, p, i);
    assert BufOk(s.buf[i], s.users[i], |s.disk|);
    assert Pinned(s, s.buf[i].blockno);
    LoggedIsDirty(s, i);
    MarkedCache(s, p, i);
    MarkedProtocol(s, p, i);
    MarkedPin(s, p, i);
    MarkedData(s, p, i);
    MarkedHome(s, p, i);
    TieFrame(s, t);
    HeadFrame(s, t);
    SavedFrame(s, t);
    WrittenSlotFrame(s, t);
  }

  lemma StepAppend(s: Sys, p: Pid, i: nat)
    requires Inv(s) && CanLogWrite(s, p, i) && !Logged(s, s.buf[i].blockno) && s.n < LOGSIZE
    ensures Inv(Marked(Appended(s, i), p, i))
  {
    var a := Appended(s, i);
    var t := Marked(a, p, i);
    assert BufOk(s.buf[i], s.users[i], |s.disk|);
    AppendCache(s, p, i);
    AppendedPin(s, p, i);
    AppendedHome(s, i);
    MarkedHome(a, p, i);
    TieFrame(s, t);
    HeadFrame(s, t);
    SavedFrame(s, t);
    WrittenSlotFrame(s, t);
  }

  lemma AppendCache(s: Sys, p: Pid, i: nat)
    requires Shape(s) && CacheInv(s) && ProtocolInv(s) && CleanInv(s) && DirtyInv(s)
    requires CanLogWrite(s, p, i) && s.n < LOGSIZE && s.buf[i].dev == 1 && s.buf[i].valid
    ensures var t := Marked(Appended(s, i), p, i); CacheInv(t) && ProtocolInv(t) && CleanInv(t) && DirtyInv(t)
  {
    var a := Appended(s, i);
    MarkedCache(a, p, i);
    MarkedProtocol(a, p, i);
    MarkedData(a, p, i);
  }

  lemma StepLogWrite(s: Sys, p: Pid, i: nat)
    requires Inv(s) && CanLogWrite(s, p, i)
    ensures Inv(DoLogWrite(s, p, i))
  {
    LogWriteInBounds(s, p, i);
    if Logged(s, s.buf[i].blockno) { StepAbsorb(s, p, i); } else { StepAppend(s, p, i); }
  }

  lemma StepEndOp(s: Sys, p: Pid)
    requires Inv(s) && p in s.ops && p !in s.checked && Unreferenced(s, p)
    ensures Inv(DoEndOp(s, p))
  {
    EndOpProtocol(s, p);
    var t := DoEndOp(s, p);
    assert |s.ops - {p}| == |s.ops| - 1;
    if t.committing { StepLastEndOp(s, t); } else { StepQuiet(s, t); }
  }

  lemma StepLastEndOp(s: Sys, t: Sys)
    requires Inv(s) && s.phase.Quiet? && !s.booting
    requires t == s.(ops := {}, outstanding := 0, committing := true, committer := t.committer,
                     phase := if s.n > 0 then WriteLog(0) else Committed)
    requires ProtocolInv(t)
    ensures Inv(t)
  {
    forall b: nat | Home(s, b) && b !in s.stale && !Pinned(s, b)
      ensures t.disk[b] == t.spec[b]
    {
    }
    forall b: nat | Home(t, b) && b !in t.stale && !Pinned(t, b)
      ensures t.disk[b] == t.spec[b]
    {
      assert !Pinned(s, b);
    }
    TieFrame(s, t);
    HeadFrame(s, t);
    SavedFrame(s, t);
  }

  lemma StepSlotWrite(s: Sys, i: nat, j: nat)
    requires Inv(s) && CanSlotWrite(s, i, j) && s.buf[i].blockno < |s.disk|
    ensures Inv(DoSlotWrite(s, i, j))
    ensures s.start < s.start + s.phase.tail + 1 < s.start + LOGSIZE
  {
    var t := DoSlotWrite(s, i, j);
    assert !s.buf[i].dirty && s.n < LOGSIZE by {
      SlotBufferClean(s, i);
      CleanBufferMeansRoom(s, i);
    }
    assert ProtocolInv(t) by { WrittenProtocol(s, i, s.buf[j].data); }
    assert CacheInv(t) && CleanInv(t) && DirtyInv(t) && HomeInv(t) && PinInv(t) by {
      LogBlockWritten(s, i, s.buf[j].data, t);
    }
    assert WrittenSlotInv(t) by {
      PinOfHeld(s, s.phase.tail, j);
      SlotWriteWritten(s, i, j);
    }
    assert HeadInv(t) && SavedHomeInv(t) && SavedSlotInv(t) by { SlotWriteSaved(s, i, j); }
    assert TieInv(t) by { TieFrame(s, t); }
  }

  /** A buffer that caches a block of the log region, or the block just after it, while slot
      `tail` of it is being written, cannot be dirty: a full log of LOGSIZE entries pins every
      buffer, so no buffer is left for its last slot. */
  lemma SlotBufferClean(s: Sys, i: nat)
    requires Inv(s) && s.phase.WriteLog? && s.phase.tail < s.n && Caches(s, i, s.start + s.phase.tail + 1)
    ensures !s.buf[i].dirty
  {
    if s.phase.tail < LOGSIZE - 1 { LogBufferClean(s, i); }
  }

  /** write_head at the end of write_log: the commit point. */
  lemma StepCommit(s: Sys, i: nat)
    requires Inv(s) && CanHeadWrite(s, i) && s.phase.WriteLog?
    ensures Inv(DoHeadWrite(s, i))
  {
    var t := DoHeadWrite(s, i);
    var d := PutHead(s.buf[i].data, s.n, s.block, s.n);
    LogBufferClean(s, i);
    CleanBufferMeansRoom(s, i);
    assert s.tainted == {};
    LogBlockWritten(s, i, d, t);
    WrittenProtocol(s, i, d);
    HeadWriteHead(s, i);
    HeadWriteTie(s, i);
    CommitSlot(s, t);
  }

  /** write_head with n == 0: the log is cleared. */
  lemma StepClear(s: Sys, i: nat)
    requires Inv(s) && CanHeadWrite(s, i) && s.phase.ClearHead?
    ensures Inv(DoHeadWrite(s, i))
  {
    var t := DoHeadWrite(s, i);
    var d := PutHead(s.buf[i].data, s.n, s.block, s.n);
    LogBlockWritten(s, i, d, t);
    WrittenProtocol(s, i, d);
    HeadWriteHead(s, i);
    HeadWriteTie(s, i);
    ClearSlot(s, i);
  }

  lemma StepSync(s: Sys)
    requires Inv(s) && s.phase.Committed? && s.full && s.n == LOGSIZE - 1
    ensures Inv(s.(phase := Install(0)))
  {
    var t := s.(phase := Install(0));
    BufFrame(s, t);
    SyncHome(s, t);
    TieFrame(s, t);
    HeadFrame(s, t);
    SavedFrame(s, t);
    WrittenSlotFrame(s, t);
  }

  lemma SyncHome(s: Sys, t: Sys)
    requires Shape(s) && HomeInv(s) && PinInv(s) && !s.booting && s.phase.Committed? && t == s.(phase := Install(0))
    ensures HomeInv(t) && PinInv(t)
  {
    forall b: nat | Home(t, b) && b !in t.stale && !Pinned(t, b)
      ensures t.disk[b] == t.spec[b]
    {
      assert !Pinned(s, b);
    }
  }

  lemma StepInstallWrite(s: Sys, i: nat, j: nat)
    requires Inv(s) && CanInstallWrite(s, i, j)
    ensures Inv(DoInstallWrite(s, i, j))
  {
    var t := DoInstallWrite(s, i, j);
    InstallSource(s, i, j);
    InstallCache(s, i, j);
    WrittenProtocol(s, j, s.buf[i].data);
    InstallWriteHome(s, i, j);
    InstallWriteSaved(s, i, j);
    InstallWriteInstalled(s, i, j);
    TieFrame(s, t);
  }

  lemma InstallCache(s: Sys, i: nat, j: nat)
    requires Shape(s) && CacheInv(s) && CleanInv(s) && DirtyInv(s) && PinInv(s) && CanInstallWrite(s, i, j)
    ensures var t := DoInstallWrite(s, i, j); CacheInv(t) && CleanInv(t) && DirtyInv(t) && PinInv(t)
  {
    var w := Written(s, j, s.buf[i].data);
    WrittenCache(s, j, s.buf[i].data);
    WrittenData(s, j, s.buf[i].data);
    BufFrame(w, DoInstallWrite(s, i, j));
    InstallWritePin(s, i, j);
  }

  /** The slot that install_trans reads holds the committed content of its block. */
  lemma InstallSource(s: Sys, i: nat, j: nat)
    requires Inv(s) && CanInstallWrite(s, i, j)
    ensures var k := s.phase.tail;
            s.buf[i].data == s.disk[s.start + 1 + k] == s.saved[s.block[k]]
            && (s.block[k] !in s.stale ==> s.buf[i].data == s.spec[s.block[k]])
  {
    HeldLogBuffer(s, i);
    InstallSlot(s);
  }

  lemma InstallSlot(s: Sys)
    requires Shape(s) && HeadInv(s) && SavedSlotInv(s) && SpecInv(s) && s.phase.Install? && s.phase.tail < s.n && s.ops == {}
    ensures var k := s.phase.tail;
            k < LOGSIZE && Home(s, s.block[k]) && s.disk[s.start + 1 + k] == s.saved[s.block[k]]
            && (s.block[k] !in s.stale ==> s.saved[s.block[k]] == s.spec[s.block[k]])
  {
    assert s.head[s.phase.tail] == s.block[s.phase.tail];
  }

  lemma StepResetN(s: Sys)
    requires Inv(s) && s.phase.Install? && s.phase.tail == s.n
    ensures Inv(s.(n := 0, phase := ClearHead))
  {
    var t := s.(n := 0, phase := ClearHead);
    BufFrame(s, t);
    ResetHome(s, t);
    TieFrame(s, t);
    HeadFrame(s, t);
    ResetSaved(s, t);
  }

  lemma ResetHome(s: Sys, t: Sys)
    requires Shape(s) && PinInv(s) && HomeInv(s) && s.phase == Install(s.n) && t == s.(n := 0, phase := ClearHead)
    ensures PinInv(t) && HomeInv(t)
  {
    assert forall b: nat :: !Pinned(s, b);
  }

  lemma ResetSaved(s: Sys, t: Sys)
    requires Shape(s) && HeadInv(s) && SavedHomeInv(s) && SavedSlotInv(s) && InstalledInv(s)
    requires s.phase == Install(s.n) && t == s.(n := 0, phase := ClearHead) && HeadInv(t)
    ensures SavedHomeInv(t) && SavedSlotInv(t) && InstalledInv(t)
  {
  }

  lemma StepReadHeader(s: Sys, i: nat)
    requires Inv(s) && s.phase.ReadHead? && HoldsHead(s, i)
    ensures Word(s.buf[i].data, 0) <= LOGSIZE && Inv(DoReadHeader(s, i))
  {
    var t := DoReadHeader(s, i);
    HeldLogBuffer(s, i);
    ReadHeaderHead(s, i);
    BufFrame(s, t);
    TieFrame(s, t);
    SavedFrame(s, t);
  }

  lemma ReadHeaderHead(s: Sys, i: nat)
    requires Shape(s) && TieInv(s) && HeadInv(s) && PinInv(s) && s.booting && i < NBUF && s.buf[i].data == s.disk[s.start]
    ensures var t := DoReadHeader(s, i); t.n == |s.head| && HeadInv(t) && PinInv(t)
  {
    var t := DoReadHeader(s, i);
    assert forall k | 0 <= k < |s.head| :: t.block[k] == HeadAt(s.start, s.disk, k) == s.head[k];
  }

  lemma StepFinish(s: Sys)
    requires Inv(s) && CanFinish(s)
    ensures Inv(s.(committing := false, booting := false, phase := Quiet))
  {
    var t := s.(committing := false, booting := false, phase := Quiet);
    forall b: nat | Home(t, b) && b !in t.stale && !Pinned(t, b)
      ensures t.disk[b] == t.spec[b]
    {
      if s.phase.Cleared? { assert b !in s.head; } else { assert !Pinned(s, b); }
    }
    TieFrame(s, t);
    HeadFrame(s, t);
    SavedFrame(s, t);
    WrittenSlotFrame(s, t);
  }
}
