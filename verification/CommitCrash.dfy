/** Crashes inside a commit, over every state that the commit passes through. */
module CommitCrash {
  import opened Blocks
  import opened LogModel
  import opened LogInvariant
  import opened LogSteps
  import opened LogTheorems
  import opened LogCache

  // ---- what stays fixed while a commit runs ----

  /** t is a later state of the commit that s is in: only slots, buffers of other blocks and the
      use of buffers may differ. */
  ghost predicate SameCommit(s: Sys, t: Sys) {
    && Shape(s) && Shape(t) && s.n <= LOGSIZE && s.phase.WriteLog? && t.phase.WriteLog? && s.phase.tail <= t.phase.tail
    && t.start == s.start && |t.disk| == |s.disk| && t.booting == s.booting && t.committer == s.committer
    && t.head == s.head && t.saved == s.saved && t.n == s.n && t.block == s.block && t.pin == s.pin
    && t.spec == s.spec && t.stale == s.stale
    && (forall k | 0 <= k < s.n :: s.pin[k] < NBUF && t.buf[s.pin[k]].data == s.buf[s.pin[k]].data)
  }

  lemma SlotStable(s: Sys, i: nat, j: nat)
    requires Inv(s) && CanSlotWrite(s, i, j) && s.buf[i].blockno < |s.disk|
    ensures SameCommit(s, DoSlotWrite(s, i, j))
  {
    SlotBufferClean(s, i);
  }

  lemma CacheStable(s: Sys, l: Label)
    requires Inv(s) && s.phase.WriteLog? && Enabled(s, l)
    requires l.Get? || l.Recycle? || l.OutOfBuffers? || l.Lock? || l.Release?
    ensures SameCommit(s, Next(s, l))
  {
    if l.Lock? || l.Release? {
      assert BufOk(s.buf[l.i], s.users[l.i], |s.disk|);
      assert s.tainted == {};
    }
  }

  /** While a commit runs no operation is active, so a step is of the cache or of the commit. */
  lemma CommitLabels(s: Sys, l: Label)
    requires Inv(s) && s.phase.WriteLog? && Enabled(s, l) && !l.Crash? && Next(s, l).phase.WriteLog?
    ensures l.Get? || l.Recycle? || l.OutOfBuffers? || l.Lock? || l.Release? || l.SlotWrite?
  {
  }

  /** Every step that stays in the commit keeps it the same commit. */
  lemma CommitStable(s: Sys, l: Label)
    requires Inv(s) && s.phase.WriteLog? && Enabled(s, l) && !l.Crash? && Next(s, l).phase.WriteLog?
    ensures SameCommit(s, Next(s, l))
  {
    CommitLabels(s, l);
    if l.SlotWrite? { SlotStable(s, l.i, l.j); } else { CacheStable(s, l); }
  }

  // ---- the states of a commit ----

  /** How a state of a commit came about from the first: one step after another, no crash. */
  datatype Trail = Here | Step(before: Trail, l: Label)

  ghost predicate Goes(h: Trail, s: Sys, t: Sys)
    decreases h, 1
  {
    Went(h, s, t)
  }

  ghost predicate Went(h: Trail, s: Sys, t: Sys)
    decreases h, 0
  {
    match h
    case Here => t == s && s.phase.WriteLog?
    case Step(before, l) =>
      exists r: Sys :: Goes(before, s, r) && Shape(r) && Enabled(r, l) && !l.Crash? && t == Next(r, l) && t.phase.WriteLog?
  }

  /** The machine passes from s to t inside one commit, before its header write. */
  ghost predicate Passes(s: Sys, t: Sys) { exists h: Trail :: Goes(h, s, t) }

  lemma PassesHere(s: Sys)
    requires s.phase.WriteLog?
    ensures Passes(s, s)
  {
    assert Went(Here, s, s);
    assert Goes(Here, s, s);
  }

  lemma PassesStep(s: Sys, t: Sys, l: Label)
    requires Passes(s, t) && Shape(t) && Enabled(t, l) && !l.Crash? && Next(t, l).phase.WriteLog?
    ensures Passes(s, Next(t, l))
  {
    var h: Trail :| Goes(h, s, t);
    assert Went(Step(h, l), s, Next(t, l));
    assert Goes(Step(h, l), s, Next(t, l));
  }

  lemma {:induction false} GoesStable(h: Trail, s: Sys, t: Sys)
    requires Reachable(s) && Goes(h, s, t)
    ensures Reachable(t) && SameCommit(s, t)
  {
    assert Went(h, s, t);
    match h
    case Here => ReachableInv(s);
    case Step(before, l) =>
      var r: Sys :| Goes(before, s, r) && Shape(r) && Enabled(r, l) && !l.Crash? && t == Next(r, l) && t.phase.WriteLog?;
      GoesStable(before, s, r);
      ReachableInv(r);
      ReachableStep(r, l);
      CommitStable(r, l);
      SameAgain(s, r, t);
  }

  lemma SameAgain(s: Sys, r: Sys, t: Sys)
    requires SameCommit(s, r) && SameCommit(r, t)
    ensures SameCommit(s, t)
  {
  }

  lemma PassesStable(s: Sys, t: Sys)
    requires Reachable(s) && Passes(s, t)
    ensures Reachable(t) && Inv(t) && SameCommit(s, t)
  {
    var h: Trail :| Goes(h, s, t);
    GoesStable(h, s, t);
    ReachableInv(t);
  }

  // ---- old, new and torn, seen from the first state ----

  lemma SameOutcome(s: Sys, t: Sys, b: nat)
    requires Inv(s) && Inv(t) && SameCommit(s, t) && Home(s, b)
    ensures Outcome(t, b) == Outcome(s, b)
  {
    if Logged(s, b) {
      var k: nat :| k < s.n && k < |s.block| && s.block[k] == b;
      OutcomeAt(s, k);
      OutcomeAt(t, k);
    }
  }

  /** At every state of the commit recovery gives the torn state for the slots written so far. */
  lemma RecoveredIsTorn(s: Sys, t: Sys, b: nat)
    requires Reachable(s) && Inv(s) && s.phase.WriteLog? && Passes(s, t) && Home(s, b)
    ensures Inv(t) && SameCommit(s, t)
    ensures Recovered(t.start, t.disk, b) == Torn(s, t.phase.tail, b)
  {
    PassesStable(s, t);
    TornIsRecovered(t, b);
    SameOutcome(s, t, b);
  }

  /** Once the header is written recovery gives what the commit was to bring about. */
  lemma HeaderGivesOutcome(s: Sys, i: nat, b: nat)
    requires Inv(s) && s.phase.WriteLog? && CanHeadWrite(s, i) && Home(s, b)
    ensures var t := DoHeadWrite(s, i); Inv(t) && Recovered(t.start, t.disk, b) == Outcome(s, b)
  {
    var t := DoHeadWrite(s, i);
    assert Inv(t) && Headed(s, t) by { HeaderWritten(s, i); }
    OutcomeAfterHeader(s, t, b);
  }

  lemma HeaderWritten(s: Sys, i: nat)
    requires Inv(s) && s.phase.WriteLog? && CanHeadWrite(s, i)
    ensures var t := DoHeadWrite(s, i); Inv(t) && Headed(s, t)
  {
    StepCommit(s, i);
  }

  lemma OutcomeAfterHeader(s: Sys, t: Sys, b: nat)
    requires Inv(s) && s.phase == WriteLog(s.n) && Headed(s, t) && Home(s, b)
    ensures Recovered(t.start, t.disk, b) == Outcome(s, b)
  {
    if Logged(s, b) {
      var k: nat :| k < s.n && k < |s.block| && s.block[k] == b;
      assert Outcome(s, b) == s.buf[s.pin[k]].data by { OutcomeAt(s, k); }
      LoggedAfterHeader(s, t, k);
    } else {
      UnloggedAfterHeader(s, t, b);
    }
  }

  /** t is s with a new header that names all entries. */
  ghost predicate Headed(s: Sys, t: Sys) {
    && Shape(s) && Shape(t) && s.n <= LOGSIZE && TieInv(t) && HeadInv(t)
    && t.start == s.start && |t.disk| == |s.disk| && t.head == s.block[..s.n]
    && (forall x: nat | x < |s.disk| && x != s.start :: t.disk[x] == s.disk[x])
  }

  lemma LoggedAfterHeader(s: Sys, t: Sys, k: nat)
    requires Headed(s, t) && PinInv(s) && WrittenSlotInv(s) && s.phase == WriteLog(s.n) && !s.booting && k < s.n
    ensures Recovered(t.start, t.disk, s.block[k]) == s.buf[s.pin[k]].data
  {
    assert t.head[k] == s.block[k];
    RecoveredCases(t, s.block[k]);
    assert t.disk[t.start + 1 + k] == s.disk[s.start + 1 + k];
  }

  lemma UnloggedAfterHeader(s: Sys, t: Sys, b: nat)
    requires Headed(s, t) && HeadInv(s) && SavedHomeInv(s) && s.phase.WriteLog? && !Logged(s, b) && Home(s, b)
    ensures Recovered(t.start, t.disk, b) == s.saved[b]
  {
    UnloggedNotInHead(s, b);
    assert b !in t.head;
    RecoveredCases(t, b);
  }

  ghost predicate GivesOld(s: Sys, t: Sys) {
    InDisk(t.start, t.disk) && HeadN(t.start, t.disk) <= LOGSIZE && |t.disk| == |s.disk| == |s.saved|
    && forall b: nat | Home(s, b) :: Recovered(t.start, t.disk, b) == s.saved[b]
  }

  ghost predicate GivesNew(s: Sys, t: Sys)
    requires Inv(s) && s.phase.WriteLog?
  {
    InDisk(t.start, t.disk) && HeadN(t.start, t.disk) <= LOGSIZE && |t.disk| == |s.disk|
    && forall b: nat | Home(s, b) :: Recovered(t.start, t.disk, b) == Outcome(s, b)
  }

  lemma GivesTorn(s: Sys, t: Sys)
    requires Reachable(s) && Inv(s) && s.phase.WriteLog? && Passes(s, t)
    ensures Inv(t) && SameCommit(s, t)
    ensures GivesOld(s, t) <==> TornIsOld(s, t.phase.tail)
    ensures GivesNew(s, t) <==> TornIsNew(s, t.phase.tail)
  {
    PassesStable(s, t);
    forall b: nat | Home(s, b) ensures Recovered(t.start, t.disk, b) == Torn(s, t.phase.tail, b) {
      RecoveredIsTorn(s, t, b);
    }
  }

  lemma CommitEnds(s: Sys, t: Sys, i: nat)
    requires Reachable(s) && Inv(s) && s.phase.WriteLog? && Passes(s, t) && Shape(t) && CanHeadWrite(t, i)
    ensures GivesNew(s, DoHeadWrite(t, i))
  {
    PassesStable(s, t);
    var u := DoHeadWrite(t, i);
    forall b: nat | Home(s, b)
      ensures InDisk(u.start, u.disk) && HeadN(u.start, u.disk) <= LOGSIZE && Recovered(u.start, u.disk, b) == Outcome(s, b)
    {
      HeaderGivesOutcome(t, i, b);
      SameOutcome(s, t, b);
    }
    StepCommit(t, i);
  }

  // ---- a commit can always go on ----

  function Total(us: seq<set<Pid>>): (n: nat) { if us == [] then 0 else |us[0]| + Total(us[1..]) }

  lemma {:induction false} TotalLess(us: seq<set<Pid>>, i: nat, q: Pid)
    requires i < |us| && q in us[i]
    ensures Total(us[i := us[i] - {q}]) < Total(us)
  {
    var vs := us[i := us[i] - {q}];
    if i == 0 {
      assert vs[1..] == us[1..];
    } else {
      TotalLess(us[1..], i - 1, q);
      assert vs[1..] == us[1..][i - 1 := us[1..][i - 1] - {q}];
    }
  }

  /** Whoever uses a buffer while a commit runs can let it go. */
  lemma {:induction false} Drain(s: Sys, t: Sys) returns (u: Sys)
    requires Reachable(s) && Passes(s, t) && t.fault == Running
    ensures Passes(s, u) && u.fault == Running && Unused(u) && u.phase == t.phase
    decreases Total(t.users)
  {
    PassesStable(s, t);
    if i: nat, p: Pid :| i < NBUF && p in t.users[i] {
      var v, q := LockedBy(s, t, i, p);
      PassesStable(s, v);
      PassesStep(s, v, Release(q, i));
      TotalLess(v.users, i, q);
      u := Drain(s, DoRelease(v, q, i));
    } else {
      forall i | 0 <= i < NBUF ensures t.users[i] == {} && t.buf[i].holder.None? {
        assert BufOk(t.buf[i], t.users[i], |t.disk|);
      }
      u := t;
    }
  }

  /** A buffer in use is held, or one of its users can lock it. */
  lemma LockedBy(s: Sys, t: Sys, i: nat, p: Pid) returns (v: Sys, q: Pid)
    requires Reachable(s) && Passes(s, t) && Inv(t) && t.phase.WriteLog? && t.fault == Running && i < NBUF && p in t.users[i]
    ensures Passes(s, v) && Shape(v) && v.fault == Running && v.phase == t.phase && v.users == t.users
    ensures Holds(v, q, i) && q in v.users[i] && q !in v.checked
  {
    assert BufOk(t.buf[i], t.users[i], |t.disk|);
    assert t.checked == map[];
    if t.buf[i].holder.Some? {
      v, q := t, t.buf[i].holder.value;
    } else {
      PassesStep(s, t, Lock(p, i));
      v, q := DoLock(t, p, i), p;
    }
  }

  /** The committer gets a buffer for block b. */
  lemma CommitHold(s: Sys, t: Sys, b: nat) returns (u: Sys, i: nat)
    requires Reachable(s) && Passes(s, t) && Reachable(t) && Shape(t) && t.phase.WriteLog? && t.fault == Running && !t.booting
    requires b < |t.disk| && (Cached(t, b) || !NoneFree(t))
    requires forall j: nat | j < NBUF && Caches(t, j, b) :: t.committer !in t.users[j] && t.buf[j].holder.None?
    ensures Passes(s, u) && Reachable(u) && Shape(u) && Took(t, u, t.committer, b, i)
  {
    var p := t.committer;
    var v: Sys;
    if Cached(t, b) {
      i :| i < |t.buf| && Caches(t, i, b);
      PassesStep(s, t, Get(p, b, i));
      TakeGet(t, p, b, i);
      v := DoGet(t, p, i);
    } else {
      i :| 0 <= i < |t.buf| && t.buf[i].refcnt == 0 && !t.buf[i].dirty;
      PassesStep(s, t, Recycle(p, b, i));
      TakeRecycle(t, p, b, i);
      v := DoRecycle(t, p, b, i);
    }
    BreadSteps(t, v, p, b, i);
    PassesStep(s, v, Lock(p, i));
    u := DoLock(v, p, i);
  }

  /** One round of write_log. */
  lemma SlotMade(s: Sys, t: Sys) returns (u: Sys)
    requires Reachable(s) && Passes(s, t) && t.fault == Running && Unused(t) && t.phase.WriteLog? && t.phase.tail < t.n < LOGSIZE
    ensures Passes(s, u) && u.fault == Running && Unused(u) && u.phase == WriteLog(t.phase.tail + 1)
  {
    PassesStable(s, t);
    SlotInRange(t);
    BufferLeft(t);
    var v, i := CommitHold(s, t, t.start + t.phase.tail + 1);
    assert t.users[i] == {};
    EntryBufferLeft(v, i);
    var w, j := CommitHold(s, v, t.block[t.phase.tail]);
    u := SlotHeld(s, t, v, w, i, j);
  }

  lemma SlotHeld(s: Sys, t: Sys, v: Sys, w: Sys, i: nat, j: nat) returns (u: Sys)
    requires Passes(s, w) && Reachable(w) && Shape(w) && Shape(t) && t.fault == Running && Unused(t) && t.checked == map[]
    requires t.phase.WriteLog? && t.phase.tail < t.n < LOGSIZE && Home(t, t.block[t.phase.tail])
    requires Took(t, v, t.committer, t.start + t.phase.tail + 1, i) && Took(v, w, t.committer, t.block[t.phase.tail], j)
    ensures Passes(s, u) && u.fault == Running && Unused(u) && u.phase == WriteLog(t.phase.tail + 1)
  {
    var p := t.committer;
    assert i != j && HoldsSlot(w, w.phase.tail, i, j);
    PassesStep(s, w, SlotWrite(i, j));
    var x := DoSlotWrite(w, i, j);
    PassesStep(s, x, Release(p, j));
    var y := DoRelease(x, p, j);
    PassesStep(s, y, Release(p, i));
    u := DoRelease(y, p, i);
    assert t.users[i] + {p} - {p} == {} && t.users[j] + {p} - {p} == {};
  }

  /** The commit can get to any number of slot writes. */
  lemma {:induction false} SlotsMade(s: Sys, t: Sys, k: nat) returns (u: Sys)
    requires Reachable(s) && Passes(s, t) && t.fault == Running && Unused(t) && t.phase.WriteLog? && t.phase.tail <= k <= t.n < LOGSIZE
    ensures Passes(s, u) && u.phase == WriteLog(k)
    decreases k - t.phase.tail
  {
    if t.phase.tail == k {
      u := t;
    } else {
      var v := SlotMade(s, t);
      PassesStable(s, t);
      PassesStable(s, v);
      u := SlotsMade(s, v, k);
    }
  }

  // ---- the exact condition ----

  /** The commit cannot write a slot: the machine has stopped, or all buffers are pinned. */
  ghost predicate Stuck(s: Sys) { s.fault != Running || s.n == LOGSIZE }

  lemma {:induction false} StoppedStays(h: Trail, s: Sys, t: Sys)
    requires Goes(h, s, t) && s.fault != Running
    ensures t == s
  {
    assert Went(h, s, t);
    if h.Step? {
      var r: Sys :| Goes(h.before, s, r) && Shape(r) && Enabled(r, h.l) && !h.l.Crash? && t == Next(r, h.l) && t.phase.WriteLog?;
      StoppedStays(h.before, s, r);
    }
  }

  lemma StuckWritesNothing(s: Sys, t: Sys)
    requires Reachable(s) && Inv(s) && s.phase == WriteLog(0) && Stuck(s) && Passes(s, t)
    ensures GivesOld(s, t)
  {
    PassesStable(s, t);
    if s.fault != Running {
      var h: Trail :| Goes(h, s, t);
      StoppedStays(h, s, t);
    }
    assert t.phase.tail == 0;
    TornIsOldWhen(s, 0);
    GivesTorn(s, t);
  }

  /** A commit is all-or-nothing, whenever the machine stops in it, if and only if it is Safe or
      cannot write a slot at all. */
  lemma CommitIsAtomicIffSafe(s: Sys)
    requires Reachable(s) && Inv(s) && s.phase == WriteLog(0)
    ensures (forall t | Passes(s, t) :: GivesOld(s, t) || GivesNew(s, t)) <==> Safe(s) || Stuck(s)
  {
    var k := TornIffUnsafe(s);
    if Safe(s) || Stuck(s) {
      forall t | Passes(s, t) ensures GivesOld(s, t) || GivesNew(s, t) {
        if Stuck(s) { StuckWritesNothing(s, t); } else { GivesTorn(s, t); }
      }
    } else {
      PassesHere(s);
      var d := Drain(s, s);
      PassesStable(s, d);
      var u := SlotsMade(s, d, k);
      GivesTorn(s, u);
      assert Passes(s, u) && !GivesOld(s, u) && !GivesNew(s, u);
    }
  }

  // ---- what a caller can do about it ----

  /** The step logs no block of the list and releases none changed but not logged. */
  ghost predicate SparesStep(s: Sys, l: Label, head: seq<nat>)
    requires Shape(s) && Enabled(s, l)
  {
    && !l.Crash? && !l.HeadWrite?
    && (l.LogWrite? ==> s.buf[l.i].blockno !in head)
    && (l.Release? && l.i in s.tainted ==> s.buf[l.i].blockno !in head)
  }

  ghost predicate Spares(s: Sys, ls: seq<Label>, head: seq<nat>)
    requires Runs(s, ls)
    decreases |ls|
  {
    ls == [] || (SparesStep(s, ls[0], head) && Spares(Next(s, ls[0]), ls[1..], head))
  }

  /** The blocks of the on-disk header still hold what was committed for them. */
  ghost predicate Spared(s: Sys, head: seq<nat>, saved: seq<Block>) {
    && s.head == head && s.saved == saved && |s.spec| == |saved|
    && forall b | b in head :: b < |saved| && b !in s.stale && s.spec[b] == saved[b]
  }

  lemma SparedStep(s: Sys, l: Label, head: seq<nat>, saved: seq<Block>)
    requires Inv(s) && Enabled(s, l) && SparesStep(s, l, head) && Spared(s, head, saved)
    ensures Spared(Next(s, l), head, saved)
  {
    SpecStep(s, l);
    SavedStep(s, l);
  }

  lemma SavedStep(s: Sys, l: Label)
    requires Inv(s) && Enabled(s, l) && !l.Crash? && !l.HeadWrite?
    ensures var t := Next(s, l);
            && t.head == s.head && t.saved == s.saved && t.start == s.start
            && forall b | b in t.stale :: b in s.stale || (l.Release? && l.i in s.tainted && s.buf[l.i].blockno == b)
  {
    if l.LogWrite? { LogWriteInBounds(s, l.p, l.i); }
  }

  lemma {:induction false} SparedRun(s: Sys, ls: seq<Label>, head: seq<nat>, saved: seq<Block>)
    requires Inv(s) && Runs(s, ls) && Spares(s, ls, head) && Spared(s, head, saved)
    ensures Inv(After(s, ls)) && Spared(After(s, ls), head, saved)
    decreases |ls|
  {
    if ls != [] {
      SparedStep(s, ls[0], head, saved);
      StepKeeps(s, ls[0]);
      SparedRun(Next(s, ls[0]), ls[1..], head, saved);
    }
  }

  /** Operations that log no block of the on-disk header, and release none changed but unlogged,
      lead to a commit that changes none of them, and so to one that a crash cannot tear. */
  lemma SparedHeaderIsSafe(s: Sys, ls: seq<Label>)
    requires Inv(s) && s.ops == {} && !s.phase.WriteLog? && (forall b | b in s.head :: b !in s.stale)
    requires Runs(s, ls) && Spares(s, ls, s.head) && After(s, ls).phase.WriteLog?
    ensures var t := After(s, ls); Inv(t) && t.head == s.head && (forall k | 0 <= k < |t.head| :: !Changes(t, k)) && Safe(t)
  {
    assert Spared(s, s.head, s.saved);
    SparedRun(s, ls, s.head, s.saved);
    var t := After(s, ls);
    forall k | 0 <= k < |t.head| ensures !Changes(t, k) {
      assert t.head[k] == t.block[k] && t.head[k] in s.head;
      assert t.tainted == {};
    }
  }

  /** No header is written and the machine does not stop. */
  ghost predicate OneGroup(ls: seq<Label>) { forall l | l in ls :: !l.Crash? && !l.HeadWrite? }

  lemma {:induction false} SavedRun(s: Sys, ls: seq<Label>)
    requires Inv(s) && Runs(s, ls) && OneGroup(ls)
    ensures var t := After(s, ls);
            Inv(t) && t.head == s.head && t.saved == s.saved && t.start == s.start
    decreases |ls|
  {
    if ls != [] {
      assert ls[0] in ls;
      StepKeeps(s, ls[0]);
      SavedStep(s, ls[0]);
      SavedRun(Next(s, ls[0]), ls[1..]);
    }
  }

  /** What the condition means to callers: a commit changes a block if and only if what they have
      last logged for it differs from what they had logged when the group of operations began. */
  lemma ChangesIsRelogged(s: Sys, ls: seq<Label>, k: nat)
    requires Inv(s) && s.ops == {} && !s.phase.WriteLog? && Runs(s, ls) && OneGroup(ls)
    requires var t := After(s, ls);
             t.phase.WriteLog? && k < t.n && k < |t.block| && t.block[k] !in s.stale && t.block[k] !in t.stale
    ensures var t := After(s, ls);
            && Inv(t) && Home(t, t.block[k]) && |t.spec| == |s.spec| == |t.disk|
            && (Changes(t, k) <==> t.spec[t.block[k]] != s.spec[t.block[k]])
  {
    SavedRun(s, ls);
    var t := After(s, ls);
    var b := t.block[k];
    assert Home(t, b) && Home(s, b);
    assert s.saved[b] == s.spec[b];
    assert NewContent(t, k) == t.spec[b] by { assert t.tainted == {}; }
  }
}
