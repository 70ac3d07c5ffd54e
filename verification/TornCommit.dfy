/** A crash inside a commit can mix old and new blocks: a run in which it does.

    Two blocks are committed together, stay in the on-disk header because the log is not full, and
    are committed together again; the machine stops after the first slot write of that commit.
 */
module TornCommit {
  import opened Blocks
  import opened LogModel
  import opened LogInvariant
  import opened LogTheorems
  import opened LogCache
  import opened CommitCrash

  /** Nothing is in progress on the buffers, and few of them are pinned. */
  ghost predicate Ready(s: Sys) {
    && Reachable(s) && Shape(s) && s.fault == Running && s.checked == map[] && s.tainted == {} && s.stale == {}
    && Unused(s) && s.n <= 2
  }

  /** bread can always be completed here. */
  lemma Hold(s: Sys, p: Pid, b: nat) returns (t: Sys, i: nat)
    requires Ready(s) && Active(s, p) && b < |s.disk|
    ensures Reachable(t) && Shape(t) && Took(s, t, p, b, i)
  {
    BufferLeft(s);
    var u: Sys;
    if k: nat :| k < |s.buf| && Caches(s, k, b) {
      i := k;
      TakeGet(s, p, b, i);
      u := DoGet(s, p, i);
    } else {
      i :| 0 <= i < |s.buf| && s.buf[i].refcnt == 0 && !s.buf[i].dirty;
      TakeRecycle(s, p, b, i);
      u := DoRecycle(s, p, b, i);
    }
    BreadSteps(s, u, p, b, i);
    t := DoLock(u, p, i);
  }

  /** What these steps leave alone. */
  ghost predicate SameLog(s: Sys, t: Sys) {
    && t.start == s.start && |t.disk| == |s.disk| && t.booting == s.booting && t.committer == s.committer
    && t.ops == s.ops && t.phase == s.phase && t.head == s.head && t.saved == s.saved
  }

  /** One block changed and logged inside an operation. */
  lemma Write(s: Sys, p: Pid, b: nat, v: Block) returns (t: Sys)
    requires Ready(s) && !s.booting && p in s.ops && Home(s, b) && (s.n < 2 || Logged(s, b))
    ensures Ready(t) && SameLog(s, t) && t.spec == s.spec[b := v]
    ensures if Logged(s, b) then t.n == s.n && t.block == s.block else t.n == s.n + 1 && t.block == s.block[s.n := b]
  {
    var h, i := Hold(s, p, b);
    t := WriteHeld(s, h, p, b, i, v);
  }

  lemma WriteHeld(s: Sys, h: Sys, p: Pid, b: nat, i: nat, v: Block) returns (t: Sys)
    requires Ready(s) && !s.booting && p in s.ops && Home(s, b) && (s.n < 2 || Logged(s, b))
    requires Reachable(h) && Shape(h) && Took(s, h, p, b, i)
    ensures Ready(t) && SameLog(s, t) && t.spec == s.spec[b := v]
    ensures if Logged(s, b) then t.n == s.n && t.block == s.block else t.n == s.n + 1 && t.block == s.block[s.n := b]
  {
    var w := LogHeld(s, h, p, b, i, v);
    TakeRelease(w, p, i);
    t := DoRelease(w, p, i);
    assert s.users[i] + {p} - {p} == {};
  }

  /** The change and log_write, while the buffer is held. */
  lemma LogHeld(s: Sys, h: Sys, p: Pid, b: nat, i: nat, v: Block) returns (w: Sys)
    requires Ready(s) && !s.booting && p in s.ops && Home(s, b) && (s.n < 2 || Logged(s, b))
    requires Reachable(h) && Shape(h) && Took(s, h, p, b, i)
    ensures Reachable(w) && Shape(w) && w.fault == Running && w.checked == map[] && w.tainted == {} && w.stale == {}
    ensures SameLog(s, w) && w.spec == s.spec[b := v] && w.users == h.users && Holds(w, p, i)
    ensures forall x | 0 <= x < NBUF && x != i :: w.buf[x] == s.buf[x]
    ensures if Logged(s, b) then w.n == s.n && w.block == s.block else w.n == s.n + 1 && w.block == s.block[s.n := b]
  {
    ReachableStep(h, Modify(p, i, v));
    var m := DoModify(h, i, v);
    TakeLogWrite(m, p, i);
    var c := m.(checked := m.checked[p := i]);
    w := DoLogWrite(c, p, i);
    assert Logged(c, b) <==> Logged(s, b);
    assert w.checked == map[];
  }

  /** One slot of write_log. */
  lemma Slot(s: Sys) returns (t: Sys)
    requires Ready(s) && s.phase.WriteLog? && s.phase.tail < s.n
    ensures Ready(t) && t.phase == LogModel.WriteLog(s.phase.tail + 1) && SameCommit(s, t) && t.ops == {}
  {
    PassesHere(s);
    t := SlotMade(s, s);
    PassesStable(s, t);
  }

  /** write_head. */
  lemma Header(s: Sys, p: Pid) returns (t: Sys)
    requires Ready(s) && s.committer == p && s.ops == {} && (s.phase == LogModel.WriteLog(s.n) || s.phase == ClearHead)
    ensures Ready(t) && t.phase == (if s.phase == ClearHead then Cleared else Committed) && t.n == s.n && KeepsLog(s, t)
    ensures t.head == s.block[..s.n]
  {
    HeaderFits(s);
    var u, i := Hold(s, p, s.start);
    TakeHeadWrite(u, i);
    var w := DoHeadWrite(u, i);
    TakeRelease(w, p, i);
    t := DoRelease(w, p, i);
    HeadDone(s, u, t, p, i);
  }

  /** The end of a commit or of recovery. */
  lemma End(s: Sys) returns (t: Sys)
    requires Ready(s) && s.ops == {} && (s.phase.Cleared? || s.phase.Committed?)
    ensures Ready(t) && t == s.(committing := false, booting := false, phase := Quiet)
    ensures forall b: nat | Home(t, b) :: t.saved[b] == t.spec[b]
  {
    ReachableStep(s, Finish);
    t := s.(committing := false, booting := false, phase := Quiet);
    ReachableInv(t);
  }

  /** Recovery of a disk with an empty log. */
  lemma Boot(start: nat, disk: seq<Block>, p: Pid) returns (t: Sys)
    requires GoodDisk(start, disk) && HeadN(start, disk) == 0
    ensures Ready(t) && !t.booting && t.phase == Quiet && t.ops == {} && t.n == 0 && t.start == start && |t.disk| == |disk|
    ensures forall b: nat | Home(t, b) :: t.saved[b] == t.spec[b]
  {
    var s := Booted(start, disk, p);
    BootReachable(start, disk, p);
    assert Ready(s) && s.head == [];
    var x := ReadEmpty(s, p);
    ReachableStep(x, ResetN);
    var y := Header(x.(n := 0, phase := ClearHead), p);
    t := End(y);
  }

  /** read_head, when the header is empty. */
  lemma ReadEmpty(s: Sys, p: Pid) returns (t: Sys)
    requires Ready(s) && s.phase.ReadHead? && s.committer == p && s.ops == {} && s.head == []
    ensures Ready(t) && t.phase == Install(0) && t.n == 0 && KeepsLog(s.(block := t.block), t)
  {
    var u, i := Hold(s, p, s.start);
    TakeReadHeader(u, i);
    var w := DoReadHeader(u, i);
    TakeRelease(w, p, i);
    t := DoRelease(w, p, i);
    ReadHeadDone(s, u, t, p, i);
    ReachableInv(t);
    assert t.head == [];
  }

  /** begin_op. */
  lemma Begin(s: Sys, p: Pid) returns (t: Sys)
    requires Ready(s) && !s.booting && s.phase == Quiet && s.ops == {}
    ensures Ready(t) && t == s.(ops := {p}, outstanding := s.outstanding + 1)
  {
    ReachableInv(s);
    ReachableStep(s, LogModel.BeginOp(p));
    t := s.(ops := s.ops + {p}, outstanding := s.outstanding + 1);
    assert s.ops + {p} == {p};
  }

  /** end_op up to commit. */
  lemma Leave(s: Sys, p: Pid) returns (t: Sys)
    requires Ready(s) && !s.booting && s.phase == Quiet && s.ops == {p} && s.n > 0
    ensures Ready(t) && t == s.(ops := {}, outstanding := 0, committing := true, committer := p, phase := LogModel.WriteLog(0))
  {
    ReachableInv(s);
    TakeEndOp(s, p);
    t := DoEndOp(s, p);
    assert s.ops - {p} == {};
  }

  /** An operation that writes v to block a and w to block b, up to its commit. */
  lemma Operation(s: Sys, p: Pid, a: nat, v: Block, b: nat, w: Block) returns (t: Sys)
    requires Ready(s) && !s.booting && s.phase == Quiet && s.ops == {} && Home(s, a) && Home(s, b) && a != b
    requires (s.n == 0) || (s.n == 2 && s.block[0] == a && s.block[1] == b)
    ensures Ready(t) && !t.booting && t.phase == LogModel.WriteLog(0) && t.ops == {} && t.committer == p
    ensures t.n == 2 && t.block[0] == a && t.block[1] == b && t.spec == s.spec[a := v][b := w]
    ensures t.start == s.start && |t.disk| == |s.disk| && t.head == s.head && t.saved == s.saved
  {
    t := Begin(s, p);
    t := Write(t, p, a, v);
    assert t.block[0] == a;
    if s.n == 2 { assert t.block[1] == b; }
    t := Write(t, p, b, w);
    t := Leave(t, p);
  }

  /** The state in which the crash comes: v was committed for both blocks, w is being committed for
      both, and one slot is written. What recovery would give is w for one and v for the other. */
  lemma CrashTears(v: Block, w: Block) returns (t: Sys, a: nat, b: nat)
    requires v != w
    ensures Reachable(t) && Shape(t) && t.phase.WriteLog? && Home(t, a) && Home(t, b) && a != b
    ensures HeadN(t.start, t.disk) <= LOGSIZE
    ensures t.saved[a] == v && t.saved[b] == v && t.spec[a] == w && t.spec[b] == w
    ensures Recovered(t.start, t.disk, a) == w && Recovered(t.start, t.disk, b) == v
  {
    var disk := seq(64, _ => Zeroed());
    a, b := 40, 41;
    t := Boot(2, disk, 1);
    t := Operation(t, 1, a, v, b, v);
    t := Slot(t);
    t := Slot(t);
    t := Header(t, 1);
    t := End(t);
    assert t.head == [a, b];
    t := Operation(t, 1, a, w, b, w);
    t := Slot(t);
    TornHalf(t, a, b);
  }

  lemma TornHalf(t: Sys, a: nat, b: nat)
    requires Ready(t) && t.phase == LogModel.WriteLog(1) && t.head == [a, b] && t.n == 2 && Home(t, a) && Home(t, b) && a != b
    ensures HeadN(t.start, t.disk) <= LOGSIZE
    ensures Recovered(t.start, t.disk, a) == t.spec[a] && Recovered(t.start, t.disk, b) == t.saved[b]
  {
    ReachableInv(t);
    RecoveredInCommit(t, a);
    RecoveredInCommit(t, b);
    assert t.head[0] == a && t.head[1] == b && t.block[0] == a;
    assert BufOk(t.buf[t.pin[0]], t.users[t.pin[0]], |t.disk|);
  }
}
