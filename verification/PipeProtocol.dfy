/** pipewrite, piperead and pipeclose with sleep and wakeup, for any number of processes.

    A step is one action of the process that holds p->lock, or a process taking the free lock.
    sleep gives up the lock and marks the process asleep in one step, as proc.c does under
    ptable.lock; wakeup makes every process asleep on its channel runnable.
 */
module PipeProtocol {
  import opened Common
  import opened Blocks
  import opened PipeBuffer

  type Pid = nat

  datatype Proc =
    // pipewrite(addr): wants the lock; in its loop at byte i; about to wake readers and then go to
    // sleep; asleep on &p->nwrite; all bytes written, about to wake readers and return
    | WantWrite(addr: seq<Byte>, i: nat)
    | Writing(addr: seq<Byte>, i: nat)
    | WriteFull(addr: seq<Byte>, i: nat, woke: bool)
    | WriteAsleep(addr: seq<Byte>, i: nat)
    | WriteDone(addr: seq<Byte>)
    // piperead(n): wants the lock; testing for data; asleep on &p->nread; copying
    | WantRead(n: nat)
    | ReadTest(n: nat)
    | ReadAsleep(n: nat)
    | Copying(n: nat, dst: seq<Byte>)

  datatype State = State(
    buf: Buffer, readopen: bool, writeopen: bool, lock: Option<Pid>, procs: map<Pid, Proc>, killed: set<Pid>,
    // bookkeeping: everything written, how much of it has been read, and where in `written` each
    // pipewrite in progress has put its bytes
    written: seq<Byte>, taken: nat, places: map<Pid, seq<nat>>)

  datatype Label =
    | StartWrite(p: Pid, addr: seq<Byte>)
    | StartRead(p: Pid, n: nat)
    | Acquire(p: Pid)
    | PutByte(p: Pid)
    | FoundFull(p: Pid)
    | WriteFails(p: Pid)
    | WakeReaders(p: Pid)
    | SleepWriter(p: Pid)
    | LoopEnds(p: Pid)
    | WriteReturns(p: Pid)
    | SleepReader(p: Pid)
    | ReadFails(p: Pid)
    | StartCopy(p: Pid)
    | TakeByte(p: Pid)
    | ReadReturns(p: Pid)
    | CloseWrite
    | CloseRead
    | Kill(p: Pid)

  /** p holds the lock and is at this point. */
  predicate Runs(s: State, p: Pid) { s.lock == Some(p) && p in s.procs }

  predicate Enabled(s: State, l: Label) {
    match l
    case StartWrite(p, addr) => p !in s.procs && s.writeopen
    case StartRead(p, n) => p !in s.procs && s.readopen
    case Acquire(p) => s.lock.None? && p in s.procs && (s.procs[p].WantWrite? || s.procs[p].WantRead?)
    case PutByte(p) => Runs(s, p) && s.procs[p].Writing? && s.procs[p].i < |s.procs[p].addr| && !Full(s.buf)
    case FoundFull(p) =>
      Runs(s, p) && s.procs[p].Writing? && s.procs[p].i < |s.procs[p].addr| && Full(s.buf) && s.readopen && p !in s.killed
    case WriteFails(p) =>
      Runs(s, p) && s.procs[p].Writing? && s.procs[p].i < |s.procs[p].addr| && Full(s.buf) && (!s.readopen || p in s.killed)
    case WakeReaders(p) => Runs(s, p) && s.procs[p].WriteFull? && !s.procs[p].woke
    case SleepWriter(p) => Runs(s, p) && s.procs[p].WriteFull? && s.procs[p].woke
    case LoopEnds(p) => Runs(s, p) && s.procs[p].Writing? && s.procs[p].i == |s.procs[p].addr|
    case WriteReturns(p) => Runs(s, p) && s.procs[p].WriteDone?
    case SleepReader(p) => Runs(s, p) && s.procs[p].ReadTest? && Empty(s.buf) && s.writeopen && p !in s.killed
    case ReadFails(p) => Runs(s, p) && s.procs[p].ReadTest? && Empty(s.buf) && s.writeopen && p in s.killed
    case StartCopy(p) => Runs(s, p) && s.procs[p].ReadTest? && !(Empty(s.buf) && s.writeopen)
    case TakeByte(p) => Runs(s, p) && s.procs[p].Copying? && |s.procs[p].dst| < s.procs[p].n && !Empty(s.buf)
    case ReadReturns(p) => Runs(s, p) && s.procs[p].Copying? && (|s.procs[p].dst| >= s.procs[p].n || Empty(s.buf))
    // an end is closed when no process is in a call on it
    case CloseWrite => s.lock.None? && s.writeopen && NoWriter(s)
    case CloseRead => s.lock.None? && s.readopen && NoReader(s)
    case Kill(p) => true
  }

  predicate IsWriter(c: Proc) { c.WantWrite? || c.Writing? || c.WriteFull? || c.WriteAsleep? || c.WriteDone? }

  predicate NoWriter(s: State) { forall p | p in s.procs :: !IsWriter(s.procs[p]) }

  predicate NoReader(s: State) { forall p | p in s.procs :: IsWriter(s.procs[p]) }

  /** wakeup(&p->nread): every reader asleep goes back to want the lock and test again. */
  function WakeRead(procs: map<Pid, Proc>): (r: map<Pid, Proc>)
    ensures r.Keys == procs.Keys
    ensures forall p | p in procs :: r[p] == if procs[p].ReadAsleep? then WantRead(procs[p].n) else procs[p]
  {
    map p | p in procs :: if procs[p].ReadAsleep? then WantRead(procs[p].n) else procs[p]
  }

  /** wakeup(&p->nwrite) */
  function WakeWrite(procs: map<Pid, Proc>): (r: map<Pid, Proc>)
    ensures r.Keys == procs.Keys
    ensures forall p | p in procs :: r[p] == if procs[p].WriteAsleep? then WantWrite(procs[p].addr, procs[p].i) else procs[p]
  {
    map p | p in procs :: if procs[p].WriteAsleep? then WantWrite(procs[p].addr, procs[p].i) else procs[p]
  }

  /** kill also makes a sleeping process runnable. */
  function Roused(c: Proc): (r: Proc) {
    if c.ReadAsleep? then WantRead(c.n) else if c.WriteAsleep? then WantWrite(c.addr, c.i) else c
  }

  function Next(s: State, l: Label): (r: State)
    requires Enabled(s, l) && |s.buf.data| == PIPESIZE
  {
    match l
    case StartWrite(p, addr) => s.(procs := s.procs[p := WantWrite(addr, 0)], places := s.places[p := []])
    case StartRead(p, n) => s.(procs := s.procs[p := WantRead(n)])
    case Acquire(p) =>
      var c := s.procs[p];
      s.(lock := Some(p), procs := s.procs[p := if c.WantWrite? then Writing(c.addr, c.i) else ReadTest(c.n)])
    case PutByte(p) =>
      var c := s.procs[p];
      s.(buf := Put(s.buf, c.addr[c.i]), written := s.written + [c.addr[c.i]], procs := s.procs[p := Writing(c.addr, c.i + 1)],
         places := if p in s.places then s.places[p := s.places[p] + [|s.written|]] else s.places)
    case FoundFull(p) => s.(procs := s.procs[p := WriteFull(s.procs[p].addr, s.procs[p].i, false)])
    case WriteFails(p) => s.(lock := None, procs := s.procs - {p})
    case WakeReaders(p) => s.(procs := WakeRead(s.procs)[p := WriteFull(s.procs[p].addr, s.procs[p].i, true)])
    case SleepWriter(p) => s.(lock := None, procs := s.procs[p := WriteAsleep(s.procs[p].addr, s.procs[p].i)])
    case LoopEnds(p) => s.(procs := s.procs[p := WriteDone(s.procs[p].addr)])
    case WriteReturns(p) => s.(lock := None, procs := WakeRead(s.procs) - {p})
    case SleepReader(p) => s.(lock := None, procs := s.procs[p := ReadAsleep(s.procs[p].n)])
    case ReadFails(p) => s.(lock := None, procs := s.procs - {p})
    case StartCopy(p) => s.(procs := s.procs[p := Copying(s.procs[p].n, [])])
    case TakeByte(p) =>
      s.(buf := Drop(s.buf), taken := s.taken + 1, procs := s.procs[p := Copying(s.procs[p].n, s.procs[p].dst + [Head(s.buf)])])
    case ReadReturns(p) => s.(lock := None, procs := WakeWrite(s.procs) - {p})
    case CloseWrite => s.(writeopen := false, procs := WakeRead(s.procs))
    case CloseRead => s.(readopen := false, procs := WakeWrite(s.procs))
    case Kill(p) =>
      s.(killed := s.killed + {p}, procs := if p in s.procs then s.procs[p := Roused(s.procs[p])] else s.procs)
  }

  // ---- invariants ----

  /** The bytes: what has been read is a prefix of what has been written, the rest is inside. */
  ghost predicate Bytes(s: State) { Holds(s.buf, s.written, s.taken) }

  /** The lock: only its holder is inside a critical section. */
  predicate Inside(c: Proc) { c.Writing? || c.WriteFull? || c.WriteDone? || c.ReadTest? || c.Copying? }

  ghost predicate Locked(s: State) {
    && (forall p | p in s.procs && Inside(s.procs[p]) :: s.lock == Some(p))
    && (s.lock.Some? ==> s.lock.value in s.procs && Inside(s.procs[s.lock.value]))
    && (forall p | p in s.procs && s.procs[p].WriteFull? :: Full(s.buf) && s.readopen)
  }

  /** Only a pipewrite that has bytes left goes to sleep. */
  ghost predicate Unfinished(s: State) {
    forall p | p in s.procs && (s.procs[p].WriteFull? || s.procs[p].WriteAsleep?) :: s.procs[p].i < |s.procs[p].addr|
  }

  /** The lock holder is a writer that will still call wakeup(&p->nread). */
  predicate WillWakeReaders(s: State) {
    s.lock.Some? && s.lock.value in s.procs
    && var c := s.procs[s.lock.value]; c.Writing? || (c.WriteFull? && !c.woke) || c.WriteDone?
  }

  /** The lock holder is a reader that will still call wakeup(&p->nwrite). */
  predicate WillWakeWriters(s: State) {
    s.lock.Some? && s.lock.value in s.procs && s.procs[s.lock.value].Copying?
  }

  /** A sleeping writer means a full pipe with its read end open, unless a wakeup is coming. */
  ghost predicate WritersSleepWell(s: State) {
    forall p | p in s.procs && s.procs[p].WriteAsleep? :: s.readopen && (Full(s.buf) || WillWakeWriters(s))
  }

  /** A sleeping reader means an empty pipe with its write end open, unless a wakeup is coming. */
  ghost predicate ReadersSleepWell(s: State) {
    forall p | p in s.procs && s.procs[p].ReadAsleep? :: s.writeopen && (Empty(s.buf) || WillWakeReaders(s))
  }

  /** A closed end has no process in a call on it. */
  ghost predicate EndsUsed(s: State) {
    (!s.writeopen ==> NoWriter(s)) && (!s.readopen ==> NoReader(s))
  }

  /** The first i bytes of addr lie, in order, at these places of what has been written. */
  ghost predicate Placed(written: seq<Byte>, addr: seq<Byte>, i: nat, at: seq<nat>) {
    && i <= |addr| && |at| == i
    && (forall k | 0 <= k < i :: at[k] < |written| && written[at[k]] == addr[k])
    && (forall j, k | 0 <= j < k < i :: at[j] < at[k])
  }

  ghost predicate Inv(s: State) {
    && Bytes(s) && Locked(s) && Unfinished(s) && WritersSleepWell(s) && EndsUsed(s)
    && (s.killed == {} ==> ReadersSleepWell(s))
  }

  lemma StepBytes(s: State, l: Label)
    requires Bytes(s) && Enabled(s, l)
    ensures Bytes(Next(s, l))
  {
    match l
    case PutByte(p) => PutHolds(s.buf, s.written, s.taken, s.procs[p].addr[s.procs[p].i]);
    case TakeByte(p) => TakeHolds(s.buf, s.written, s.taken);
    case _ =>
  }

  lemma StepLocked(s: State, l: Label)
    requires Bytes(s) && Locked(s) && Enabled(s, l)
    ensures Locked(Next(s, l))
  {
  }

  lemma StepUnfinished(s: State, l: Label)
    requires |s.buf.data| == PIPESIZE && Unfinished(s) && Enabled(s, l)
    ensures Unfinished(Next(s, l))
  {
  }

  lemma StepEnds(s: State, l: Label)
    requires Bytes(s) && EndsUsed(s) && Enabled(s, l)
    ensures EndsUsed(Next(s, l))
  {
  }

  lemma StepWriters(s: State, l: Label)
    requires Bytes(s) && Locked(s) && WritersSleepWell(s) && Enabled(s, l)
    ensures WritersSleepWell(Next(s, l))
  {
  }

  lemma StepReaders(s: State, l: Label)
    requires Bytes(s) && Locked(s) && ReadersSleepWell(s) && Enabled(s, l) && !l.WriteFails?
    ensures ReadersSleepWell(Next(s, l))
  {
  }

  ghost predicate ReaderAsleep(s: State) { exists q :: q in s.procs && s.procs[q].ReadAsleep? }

  ghost predicate Loses(s: State, l: Label) { l.WriteFails? && s.readopen && ReaderAsleep(s) }

  /** Exactly one kind of step breaks the promise to readers: a pipewrite that gives up on a full
      pipe whose read end is open, which it does only when killed, while a reader is asleep. */
  lemma WakeupLostExactly(s: State, l: Label)
    requires Inv(s) && ReadersSleepWell(s) && Enabled(s, l)
    ensures ReadersSleepWell(Next(s, l)) <==> !Loses(s, l)
    ensures Loses(s, l) ==> l.p in s.killed
  {
    if l.WriteFails? {
      Tests(s.buf, s.written, s.taken);
      var t := Next(s, l);
      assert forall q | q in s.procs && q != l.p :: q in t.procs && t.procs[q] == s.procs[q];
    } else {
      StepReaders(s, l);
    }
  }

  /** How many of its bytes a pipewrite should have put in. */
  function Done(c: Proc): (n: nat)
    requires IsWriter(c)
  {
    if c.WriteDone? then |c.addr| else c.i
  }

  ghost predicate WritesPlaced(s: State) {
    forall p | p in s.procs && IsWriter(s.procs[p]) ::
      p in s.places && Placed(s.written, s.procs[p].addr, Done(s.procs[p]), s.places[p])
  }

  /** d is the last of what was taken. */
  ghost predicate LastTaken(written: seq<Byte>, taken: nat, d: seq<Byte>) {
    |d| <= taken <= |written| && d == written[taken - |d|..taken]
  }

  ghost predicate ReadsUnbroken(s: State) {
    forall p | p in s.procs && s.procs[p].Copying? ::
      |s.procs[p].dst| <= s.procs[p].n && LastTaken(s.written, s.taken, s.procs[p].dst)
  }

  lemma PutPlaced(s: State, p: Pid)
    requires |s.buf.data| == PIPESIZE && WritesPlaced(s) && Enabled(s, PutByte(p))
    ensures WritesPlaced(Next(s, PutByte(p)))
  {
    var c, t := s.procs[p], Next(s, PutByte(p));
    assert Placed(s.written, c.addr, c.i, s.places[p]);
    assert Placed(t.written, c.addr, c.i + 1, t.places[p]);
  }

  lemma StepPlaced(s: State, l: Label)
    requires |s.buf.data| == PIPESIZE && WritesPlaced(s) && Enabled(s, l)
    ensures WritesPlaced(Next(s, l))
  {
    if l.PutByte? { PutPlaced(s, l.p); }
  }

  lemma Longer(w: seq<Byte>, d: seq<Byte>, at: nat)
    requires at < |w| && LastTaken(w, at, d)
    ensures LastTaken(w, at + 1, d + [w[at]])
  {
  }

  lemma TakeUnbroken(s: State, p: Pid)
    requires Locked(s) && ReadsUnbroken(s) && |s.buf.data| == PIPESIZE && Enabled(s, TakeByte(p))
    requires s.taken < |s.written| && Head(s.buf) == s.written[s.taken]
    ensures ReadsUnbroken(Next(s, TakeByte(p)))
  {
    var t := Next(s, TakeByte(p));
    forall q | q in t.procs && t.procs[q].Copying? ensures q == p {
      assert q in s.procs && Inside(s.procs[q]);
    }
    var c := s.procs[p];
    Longer(s.written, c.dst, s.taken);
    assert t.procs[p] == Copying(c.n, c.dst + [s.written[s.taken]]);
  }

  /** While a byte is put in, no process is copying. */
  lemma PutUnbroken(s: State, p: Pid)
    requires Locked(s) && |s.buf.data| == PIPESIZE && Enabled(s, PutByte(p))
    ensures ReadsUnbroken(Next(s, PutByte(p)))
  {
    var t := Next(s, PutByte(p));
    forall q | q in t.procs ensures !t.procs[q].Copying? {
      assert q in s.procs && (Inside(s.procs[q]) ==> q == p);
    }
  }

  lemma OtherCopying(s: State, l: Label)
    requires |s.buf.data| == PIPESIZE && Enabled(s, l) && !l.TakeByte? && !l.PutByte?
    ensures var t := Next(s, l);
            && t.written == s.written && t.taken == s.taken
            && forall q | q in t.procs && t.procs[q].Copying? ::
                 t.procs[q].dst == [] || (q in s.procs && s.procs[q] == t.procs[q])
  {
  }

  lemma OtherUnbroken(s: State, l: Label)
    requires |s.buf.data| == PIPESIZE && s.taken <= |s.written| && ReadsUnbroken(s) && Enabled(s, l)
    requires !l.TakeByte? && !l.PutByte?
    ensures ReadsUnbroken(Next(s, l))
  {
    var t := Next(s, l);
    OtherCopying(s, l);
    assert t.written[t.taken..t.taken] == [];
  }

  lemma StepUnbroken(s: State, l: Label)
    requires Bytes(s) && Locked(s) && ReadsUnbroken(s) && Enabled(s, l)
    ensures ReadsUnbroken(Next(s, l))
  {
    if l.TakeByte? {
      TakeHolds(s.buf, s.written, s.taken);
      TakeUnbroken(s, l.p);
    } else if l.PutByte? {
      PutUnbroken(s, l.p);
    } else {
      OtherUnbroken(s, l);
    }
  }

  lemma StepKeeps(s: State, l: Label)
    requires Inv(s) && Enabled(s, l)
    ensures Inv(Next(s, l))
  {
    StepBytes(s, l);
    StepLocked(s, l);
    StepUnfinished(s, l);
    StepEnds(s, l);
    StepWriters(s, l);
    if s.killed == {} && !l.WriteFails? { StepReaders(s, l); }
  }

  // ---- runs ----

  /** pipealloc. */
  function Fresh(data: seq<Byte>): (s: State) {
    State(Buffer(data, 0, 0), true, true, None, map[], {}, [], 0, map[])
  }

  ghost predicate Run(s: State, ls: seq<Label>)
    decreases |ls|
  {
    ls == [] || (|s.buf.data| == PIPESIZE && Enabled(s, ls[0]) && Run(Next(s, ls[0]), ls[1..]))
  }

  ghost function After(s: State, ls: seq<Label>): (t: State)
    requires Run(s, ls)
    decreases |ls|
  {
    if ls == [] then s else After(Next(s, ls[0]), ls[1..])
  }

  lemma {:induction false} RunKeeps(s: State, ls: seq<Label>)
    requires Inv(s) && Run(s, ls)
    ensures Inv(After(s, ls))
    ensures s.written <= After(s, ls).written && s.taken <= After(s, ls).taken
    decreases |ls|
  {
    if ls != [] {
      StepKeeps(s, ls[0]);
      RunKeeps(Next(s, ls[0]), ls[1..]);
    }
  }

  /** At every point of every run each pipewrite in progress has its bytes, in order, among those
      written, and what each piperead has copied is an unbroken stretch of them. */
  lemma {:induction false} RunDelivers(s: State, ls: seq<Label>)
    requires Inv(s) && WritesPlaced(s) && ReadsUnbroken(s) && Run(s, ls)
    ensures WritesPlaced(After(s, ls)) && ReadsUnbroken(After(s, ls))
    decreases |ls|
  {
    if ls != [] {
      StepKeeps(s, ls[0]);
      StepPlaced(s, ls[0]);
      StepUnbroken(s, ls[0]);
      RunDelivers(Next(s, ls[0]), ls[1..]);
    }
  }

  // ---- what was asked for ----

  function Noted(calls: map<Pid, Label>, l: Label): (r: map<Pid, Label>) {
    if l.StartWrite? || l.StartRead? then calls[l.p := l] else calls
  }

  /** The call that each process made last. */
  function Calls(calls: map<Pid, Label>, ls: seq<Label>): (r: map<Pid, Label>)
    decreases |ls|
  {
    if ls == [] then calls else Calls(Noted(calls, ls[0]), ls[1..])
  }

  /** The call that a process is in. */
  function Call(p: Pid, c: Proc): (l: Label) { if IsWriter(c) then StartWrite(p, c.addr) else StartRead(p, c.n) }

  /** Each process is still at what it was asked for. */
  ghost predicate AsAsked(s: State, calls: map<Pid, Label>) {
    forall p | p in s.procs :: p in calls && calls[p] == Call(p, s.procs[p])
  }

  lemma CallKept(s: State, l: Label, q: Pid)
    requires |s.buf.data| == PIPESIZE && Enabled(s, l) && q in Next(s, l).procs
    ensures q in s.procs ==> Call(q, Next(s, l).procs[q]) == Call(q, s.procs[q])
    ensures q in s.procs && (l.StartWrite? || l.StartRead?) ==> l.p != q
    ensures q !in s.procs ==> (l.StartWrite? || l.StartRead?) && l == Call(q, Next(s, l).procs[q])
  {
  }

  lemma StepAsAsked(s: State, l: Label, calls: map<Pid, Label>)
    requires |s.buf.data| == PIPESIZE && Enabled(s, l) && AsAsked(s, calls)
    ensures AsAsked(Next(s, l), Noted(calls, l))
  {
    var t := Next(s, l);
    forall q | q in t.procs ensures q in Noted(calls, l) && Noted(calls, l)[q] == Call(q, t.procs[q]) {
      CallKept(s, l, q);
    }
  }

  lemma {:induction false} RunAsAsked(s: State, ls: seq<Label>, calls: map<Pid, Label>)
    requires Run(s, ls) && AsAsked(s, calls)
    ensures AsAsked(After(s, ls), Calls(calls, ls))
    decreases |ls|
  {
    if ls != [] {
      StepAsAsked(s, ls[0], calls);
      RunAsAsked(Next(s, ls[0]), ls[1..], Noted(calls, ls[0]));
    }
  }

  /** A pipewrite that is about to return has put in all it was called with. */
  ghost predicate WroteAll(s: State, call: Label, at: seq<nat>) {
    call.StartWrite? && Placed(s.written, call.addr, |call.addr|, at)
  }

  /** A piperead that is about to return with d has as many bytes as it was called for, or fewer and
      has emptied the pipe; they are the last ones taken, in the order they were written. */
  ghost predicate ReadAll(s: State, call: Label, d: seq<Byte>) {
    && call.StartRead? && LastTaken(s.written, s.taken, d)
    && (|d| == call.n || (|d| < call.n && s.taken == |s.written|))
  }

  lemma Returns(s: State, calls: map<Pid, Label>, p: Pid)
    requires Bytes(s) && WritesPlaced(s) && ReadsUnbroken(s) && AsAsked(s, calls)
    ensures Enabled(s, WriteReturns(p)) ==> p in calls && p in s.places && WroteAll(s, calls[p], s.places[p])
    ensures Enabled(s, ReadReturns(p)) ==> p in calls && ReadAll(s, calls[p], s.procs[p].dst)
  {
    Tests(s.buf, s.written, s.taken);
  }

  /** In every run, a pipewrite returns n only when all the bytes it was called with are in the pipe,
      once each and in order, and a piperead returns only with all it was called for or all there is. */
  lemma Delivery(data: seq<Byte>, ls: seq<Label>, p: Pid)
    requires |data| == PIPESIZE && Run(Fresh(data), ls)
    ensures var s, calls := After(Fresh(data), ls), Calls(map[], ls);
            && (Enabled(s, WriteReturns(p)) ==> p in calls && p in s.places && WroteAll(s, calls[p], s.places[p]))
            && (Enabled(s, ReadReturns(p)) ==> p in calls && ReadAll(s, calls[p], s.procs[p].dst))
  {
    var s := After(Fresh(data), ls);
    assert Bytes(s) by { RunKeeps(Fresh(data), ls); }
    assert WritesPlaced(s) && ReadsUnbroken(s) by { RunDelivers(Fresh(data), ls); }
    assert AsAsked(s, Calls(map[], ls)) by { RunAsAsked(Fresh(data), ls, map[]); }
    Returns(s, Calls(map[], ls), p);
  }

  /** A step of the process that holds the lock. */
  predicate Own(l: Label, p: Pid) {
    !l.StartWrite? && !l.StartRead? && !l.Acquire? && !l.CloseWrite? && !l.CloseRead? && !l.Kill? && l.p == p
  }

  lemma HolderStep(s: State, p: Pid) returns (l: Label)
    requires Locked(s) && WritesPlaced(s) && s.lock == Some(p)
    ensures Own(l, p) && Enabled(s, l) && forall m | Own(m, p) && Enabled(s, m) :: m == l
  {
    match s.procs[p] {
      case Writing(addr, i) =>
        l := if i == |addr| then LoopEnds(p)
             else if !Full(s.buf) then PutByte(p)
             else if s.readopen && p !in s.killed then FoundFull(p) else WriteFails(p);
      case WriteFull(_, _, woke) => l := if woke then SleepWriter(p) else WakeReaders(p);
      case WriteDone(_) => l := WriteReturns(p);
      case ReadTest(_) =>
        l := if !(Empty(s.buf) && s.writeopen) then StartCopy(p)
             else if p in s.killed then ReadFails(p) else SleepReader(p);
      case Copying(n, dst) => l := if |dst| < n && !Empty(s.buf) then TakeByte(p) else ReadReturns(p);
    }
  }

  /** In every run, the process that holds the lock can go on, and in one way only. */
  lemma HolderMoves(data: seq<Byte>, ls: seq<Label>, p: Pid) returns (l: Label)
    requires |data| == PIPESIZE && Run(Fresh(data), ls) && After(Fresh(data), ls).lock == Some(p)
    ensures var s := After(Fresh(data), ls);
            Own(l, p) && Enabled(s, l) && forall m | Own(m, p) && Enabled(s, m) :: m == l
  {
    RunKeeps(Fresh(data), ls);
    RunDelivers(Fresh(data), ls);
    l := HolderStep(After(Fresh(data), ls), p);
  }

  /** End of file: a piperead that finds the pipe empty and its write end closed takes two steps and
      is out, with no byte. */
  lemma EndOfFile(s: State, p: Pid)
    requires Inv(s) && Runs(s, p) && s.procs[p].ReadTest? && Empty(s.buf) && !s.writeopen
    ensures Run(s, [StartCopy(p), ReadReturns(p)])
    ensures Next(s, StartCopy(p)).procs[p].dst == []
    ensures var t := After(s, [StartCopy(p), ReadReturns(p)]); p !in t.procs && t.lock.None? && t.buf == s.buf
  {
    var ls := Extend(s, [], StartCopy(p));
    ls := Extend(s, ls, ReadReturns(p));
    assert ls == [StartCopy(p), ReadReturns(p)];
  }

  /** A process asleep in the pipe that is killed while the lock is free gets out, with an error. */
  lemma KillFrees(s: State, p: Pid)
    requires Inv(s) && s.lock.None? && p in s.procs
    requires s.procs[p].WriteAsleep? || (s.procs[p].ReadAsleep? && Empty(s.buf) && s.writeopen)
    ensures var ls := [Kill(p), Acquire(p), if s.procs[p].WriteAsleep? then WriteFails(p) else ReadFails(p)];
            Run(s, ls) && After(s, ls) == s.(killed := s.killed + {p}, procs := s.procs - {p})
  {
    var out := if s.procs[p].WriteAsleep? then WriteFails(p) else ReadFails(p);
    var ls := Extend(s, [], Kill(p));
    ls := Extend(s, ls, Acquire(p));
    ls := Extend(s, ls, out);
    assert ls == [Kill(p), Acquire(p), out];
    assert After(s, ls).procs == s.procs - {p};
  }

  /** The bytes that readers take in a run, in the order they take them. */
  ghost function Received(s: State, ls: seq<Label>): (bytes: seq<Byte>)
    requires Run(s, ls)
    decreases |ls|
  {
    if ls == [] then []
    else (if ls[0].TakeByte? then [Head(s.buf)] else []) + Received(Next(s, ls[0]), ls[1..])
  }

  /** What a step delivers is the stretch of `written` by which it moves `taken`. */
  lemma StepReceives(s: State, l: Label)
    requires Bytes(s) && Enabled(s, l)
    ensures var t := Next(s, l);
            && s.taken <= t.taken <= |t.written| && s.written <= t.written
            && (if l.TakeByte? then [Head(s.buf)] else []) == t.written[s.taken..t.taken]
  {
    StepBytes(s, l);
    if l.TakeByte? { TakeHolds(s.buf, s.written, s.taken); }
  }

  lemma {:induction false} RunReceives(s: State, ls: seq<Label>)
    requires Inv(s) && Run(s, ls)
    ensures var t := After(s, ls);
            s.taken <= t.taken <= |t.written| && Received(s, ls) == t.written[s.taken..t.taken]
    decreases |ls|
  {
    if ls != [] {
      var r, t := Next(s, ls[0]), After(s, ls);
      assert Inv(r) by { StepKeeps(s, ls[0]); }
      StepReceives(s, ls[0]);
      assert r.written <= t.written by { RunKeeps(r, ls[1..]); }
      RunReceives(r, ls[1..]);
      TwoStretches(r.written, t.written, s.taken, r.taken, t.taken);
    }
  }

  lemma TwoStretches(w: seq<Byte>, v: seq<Byte>, i: nat, j: nat, k: nat)
    requires w <= v && i <= j <= k <= |v| && j <= |w|
    ensures w[i..j] + v[j..k] == v[i..k]
  {
  }

  /** First in, first out: in every run the bytes that readers have taken are exactly the first
      ones written, in order, and the bytes inside are exactly the rest, at most PIPESIZE. */
  lemma Fifo(data: seq<Byte>, ls: seq<Label>)
    requires |data| == PIPESIZE && Run(Fresh(data), ls)
    ensures var s := After(Fresh(data), ls);
            && s.taken <= |s.written| <= s.taken + PIPESIZE && |s.buf.data| == PIPESIZE
            && Received(Fresh(data), ls) == s.written[..s.taken]
            && Contents(s.buf) == s.written[s.taken..]
  {
    RunKeeps(Fresh(data), ls);
    RunReceives(Fresh(data), ls);
    var s := After(Fresh(data), ls);
    ContentsAre(s.buf, s.written, s.taken);
  }

  /** The promise to readers holds at every point of the run. */
  ghost predicate AlwaysWell(s: State, ls: seq<Label>)
    requires Run(s, ls)
    decreases |ls|
  {
    ReadersSleepWell(s) && (ls == [] || AlwaysWell(Next(s, ls[0]), ls[1..]))
  }

  ghost predicate NeverLoses(s: State, ls: seq<Label>)
    requires Run(s, ls)
    decreases |ls|
  {
    ls == [] || (!Loses(s, ls[0]) && NeverLoses(Next(s, ls[0]), ls[1..]))
  }

  /** It does so if and only if no writer gives up on a full pipe while a reader is asleep. */
  lemma {:induction false} WellUntilLost(s: State, ls: seq<Label>)
    requires Inv(s) && ReadersSleepWell(s) && Run(s, ls)
    ensures AlwaysWell(s, ls) <==> NeverLoses(s, ls)
    decreases |ls|
  {
    if ls != [] {
      WakeupLostExactly(s, ls[0]);
      StepKeeps(s, ls[0]);
      if !Loses(s, ls[0]) { WellUntilLost(Next(s, ls[0]), ls[1..]); }
    }
  }

  /** In every run in which no process is killed, when the lock is free a sleeping writer means a
      full pipe and a sleeping reader an empty one, so they never wait for each other. */
  lemma NoLostWakeup(data: seq<Byte>, ls: seq<Label>, p: Pid, q: Pid)
    requires |data| == PIPESIZE && Run(Fresh(data), ls)
    ensures var s := After(Fresh(data), ls);
            s.lock.None? && p in s.procs && q in s.procs ==>
              && (s.procs[p].WriteAsleep? ==> Full(s.buf) && s.readopen)
              && (s.killed == {} && s.procs[q].ReadAsleep? ==> Empty(s.buf) && s.writeopen)
              && (s.killed == {} ==> !(s.procs[p].WriteAsleep? && s.procs[q].ReadAsleep?))
  {
    RunKeeps(Fresh(data), ls);
    var s := After(Fresh(data), ls);
    Tests(s.buf, s.written, s.taken);
  }

  lemma {:induction false} RunConcat(s: State, ls: seq<Label>, ms: seq<Label>)
    requires Run(s, ls) && Run(After(s, ls), ms)
    ensures Run(s, ls + ms) && After(s, ls + ms) == After(After(s, ls), ms)
    decreases |ls|
  {
    if ls == [] {
      assert ls + ms == ms;
    } else {
      RunConcat(Next(s, ls[0]), ls[1..], ms);
      assert (ls + ms)[1..] == ls[1..] + ms;
    }
  }

  /** A writer that holds the lock can write k bytes in a row while there is room. */
  lemma {:induction false} PutMany(s: State, p: Pid, k: nat) returns (ls: seq<Label>)
    requires Inv(s) && Runs(s, p) && s.procs[p].Writing? && s.procs[p].i + k <= |s.procs[p].addr|
    requires |s.written| + k <= s.taken + PIPESIZE
    ensures Run(s, ls)
    ensures var t := After(s, ls); var c := s.procs[p];
            Inv(t) && t == s.(buf := t.buf, written := t.written, places := t.places, procs := s.procs[p := Writing(c.addr, c.i + k)])
            && |t.written| == |s.written| + k
    decreases k
  {
    if k == 0 {
      assert s.procs[p := s.procs[p]] == s.procs;
      ls := [];
    } else {
      Tests(s.buf, s.written, s.taken);
      StepKeeps(s, PutByte(p));
      var t := Next(s, PutByte(p));
      var ms := PutMany(t, p, k - 1);
      ls := [PutByte(p)] + ms;
      assert ls[1..] == ms;
      assert t.procs[p := Writing(t.procs[p].addr, t.procs[p].i + k - 1)]
             == s.procs[p := Writing(s.procs[p].addr, s.procs[p].i + k)];
    }
  }

  /** It happens: a reader sleeps on an empty pipe, a writer fills the pipe, is killed, and leaves;
      the reader sleeps on with 512 bytes to read, the lock free and no process to wake it. */
  lemma LostWakeup(data: seq<Byte>) returns (ls: seq<Label>)
    requires |data| == PIPESIZE
    ensures Run(Fresh(data), ls)
    ensures var s := After(Fresh(data), ls);
            s.lock.None? && Full(s.buf) && s.procs == map[1 := ReadAsleep(1)] && s.readopen && s.writeopen
  {
    var addr := seq(PIPESIZE + 1, _ => 0);
    var s0 := Fresh(data);
    ls := ReaderThenWriter(data, addr);
    RunKeeps(s0, ls);
    var bs := PutMany(After(s0, ls), 2, PIPESIZE);
    RunConcat(s0, ls, bs);
    var s3 := After(s0, ls + bs);
    Tests(s3.buf, s3.written, s3.taken);
    ls := Extend(s0, ls + bs, Kill(2));
    ls := Extend(s0, ls, WriteFails(2));
    assert After(s0, ls).procs == map[1 := ReadAsleep(1)];
  }

  lemma ReaderThenWriter(data: seq<Byte>, addr: seq<Byte>) returns (ls: seq<Label>)
    requires |data| == PIPESIZE
    ensures Run(Fresh(data), ls)
    ensures After(Fresh(data), ls)
            == Fresh(data).(lock := Some(2), procs := map[1 := ReadAsleep(1), 2 := Writing(addr, 0)], places := map[2 := []])
  {
    var s0 := Fresh(data);
    ls := [];
    ls := Extend(s0, ls, StartRead(1, 1));
    ls := Extend(s0, ls, Acquire(1));
    ls := Extend(s0, ls, SleepReader(1));
    assert After(s0, ls).procs == map[1 := ReadAsleep(1)];
    ls := Extend(s0, ls, StartWrite(2, addr));
    ls := Extend(s0, ls, Acquire(2));
    assert After(s0, ls).procs == map[1 := ReadAsleep(1), 2 := Writing(addr, 0)];
  }

  lemma Extend(s: State, ls: seq<Label>, l: Label) returns (ms: seq<Label>)
    requires Run(s, ls) && |After(s, ls).buf.data| == PIPESIZE && Enabled(After(s, ls), l)
    ensures ms == ls + [l] && Run(s, ms) && After(s, ms) == Next(After(s, ls), l)
  {
    ms := ls + [l];
    assert [l][1..] == [];
    RunConcat(s, ls, [l]);
  }
}
