/** The file system on the log: what a crash leaves of it. */
module FsRecovery {
  import opened Blocks
  import opened FsTree
  import opened FileContent
  import opened FsStores
  import FileSystem
  import opened LogModel
  import opened LogInvariant
  import opened LogTheorems
  import opened CommitCrash

  const IPB: nat := 8

  /** Where mkfs put things: the bitmap and the data, and before them the inode blocks. */
  datatype Image = Image(sb: Super, inodestart: nat, ninodes: nat)

  predicate Area(g: Image, d: seq<Block>) {
    GoodSuper(g.sb, d) && g.inodestart + g.ninodes / IPB < g.sb.bmapstart
  }

  /** `struct dinode` number i: 16 words, of which word 2 is the size and the last 13 the addresses. */
  function DinodeAt(b: Block, k: nat): (n: Inode)
    requires k < IPB
  {
    Inode(Word(b, 16 * k + 2), seq<nat>(NADDR, a requires 0 <= a < NADDR => Word(b, 16 * k + 3 + a)))
  }

  function Dinodes(g: Image, d: seq<Block>): (ns: seq<Inode>)
    requires Area(g, d)
    ensures |ns| == g.ninodes && Inodes(ns)
  {
    seq(g.ninodes, i requires 0 <= i < g.ninodes => DinodeAt(d[g.inodestart + i / IPB], i % IPB))
  }

  /** The disk holds a file system: trees own exactly the marked blocks, files have no holes. */
  ghost predicate Sound(g: Image, d: seq<Block>) {
    Area(g, d) && Owned(g.sb, d, Dinodes(g, d), {}) && NoHoles(d, Dinodes(g, d))
  }

  predicate InUse(g: Image, d: seq<Block>, b: nat)
    requires Area(g, d)
  {
    g.inodestart <= b < |d| && FsTree.Marked(g.sb, d, b)
  }

  ghost predicate SameInUse(g: Image, d: seq<Block>, e: seq<Block>)
    requires Area(g, d)
  {
    |e| == |d| && forall b: nat | InUse(g, d, b) :: e[b] == d[b]
  }

  lemma SameMeta(g: Image, d: seq<Block>, e: seq<Block>, b: nat)
    requires Sound(g, d) && SameInUse(g, d, e) && g.inodestart <= b < g.sb.data
    ensures e[b] == d[b]
  {
    assert FsTree.Marked(g.sb, d, b);
    assert InUse(g, d, b);
  }

  lemma SameDinodes(g: Image, d: seq<Block>, e: seq<Block>)
    requires Sound(g, d) && SameInUse(g, d, e)
    ensures Area(g, e) && Dinodes(g, e) == Dinodes(g, d)
  {
    forall i: nat | i < g.ninodes
      ensures Dinodes(g, e)[i] == Dinodes(g, d)[i]
    {
      SameMeta(g, d, e, g.inodestart + i / IPB);
    }
  }

  lemma {:induction false} SameSlot(g: Image, d: seq<Block>, e: seq<Block>, ino: nat, p: Path)
    requires Sound(g, d) && SameInUse(g, d, e) && ino < g.ninodes && Good(p)
    ensures var a := Dinodes(g, d)[ino].addrs; Slot(e, a, p) == Slot(d, a, p)
    decreases p
  {
    var ns := Dinodes(g, d);
    match p
    case Top(_) =>
    case Sub(q, i) =>
      SameSlot(g, d, e, ino, q);
      var v := At(d, ns, Pos(ino, q));
      if v != 0 { assert InUse(g, d, v); }
  }

  lemma SameSlots(g: Image, d: seq<Block>, e: seq<Block>)
    requires Sound(g, d) && SameInUse(g, d, e)
    ensures forall x | Valid(Dinodes(g, d), x) :: At(e, Dinodes(g, d), x) == At(d, Dinodes(g, d), x)
  {
    forall x | Valid(Dinodes(g, d), x)
      ensures At(e, Dinodes(g, d), x) == At(d, Dinodes(g, d), x)
    {
      SameSlot(g, d, e, x.ino, x.path);
    }
  }

  lemma SameOwned(g: Image, d: seq<Block>, e: seq<Block>)
    requires Sound(g, d) && SameInUse(g, d, e)
    ensures Owned(g.sb, e, Dinodes(g, d), {})
  {
    assert GoodSuper(g.sb, e);
    forall y: nat | y < g.sb.size
      ensures FsTree.Marked(g.sb, e, y) == FsTree.Marked(g.sb, d, y)
    {
      SameMeta(g, d, e, g.sb.bmapstart + y / Bitmap.BPB);
    }
    SameSlots(g, d, e);
    OwnedFrame(g.sb, d, Dinodes(g, d), e, Dinodes(g, d));
  }

  lemma SameFiles(g: Image, d: seq<Block>, e: seq<Block>, ns: seq<Inode>)
    requires Sound(g, d) && SameInUse(g, d, e) && ns == Dinodes(g, d)
    ensures NoHoles(e, ns) && forall j: nat | j < g.ninodes :: Content(e, ns, j) == Content(d, ns, j)
  {
    SameSlots(g, d, e);
    forall j: nat, n: nat | Mapped(d, ns, j, n)
      ensures Mapped(e, ns, j, n) && e[BlockOf(e, ns, j, n)] == d[BlockOf(d, ns, j, n)]
    {
      var x := Pos(j, PathOf(n));
      assert Valid(ns, x) && At(e, ns, x) == At(d, ns, x) == BlockOf(d, ns, j, n);
      assert InUse(g, d, At(d, ns, x));
    }
    forall j: nat | j < g.ninodes
      ensures Content(e, ns, j) == Content(d, ns, j)
    {
      forall y: nat | y < ns[j].size
        ensures Content(e, ns, j)[y] == Content(d, ns, j)[y]
      {
        InFile(d, ns, j, y);
      }
    }
  }

  /** A file system is what it is by the blocks in use: change any others and it is the same. */
  lemma SoundFrame(g: Image, d: seq<Block>, e: seq<Block>)
    requires Sound(g, d) && SameInUse(g, d, e)
    ensures Sound(g, e) && Dinodes(g, e) == Dinodes(g, d)
    ensures forall j: nat | j < g.ninodes :: Content(e, Dinodes(g, e), j) == Content(d, Dinodes(g, d), j)
  {
    SameDinodes(g, d, e);
    SameOwned(g, d, e);
    SameFiles(g, d, e, Dinodes(g, d));
  }

  // ---- on the log ----

  /** The log lies before the inode blocks. */
  ghost predicate OnLog(g: Image, s: Sys) { s.start + LOGSIZE <= g.inodestart }

  /** What was last logged is a file system, and every block in use was logged when last changed. */
  ghost predicate LogicalSound(g: Image, s: Sys) {
    Sound(g, s.spec) && forall b: nat | InUse(g, s.spec, b) :: b !in s.stale
  }

  lemma OneStep(s: Sys, l: Label, ls: seq<Label>)
    requires Shape(s) && Enabled(s, l) && Runs(Next(s, l), ls)
    ensures Runs(s, [l] + ls) && After(s, [l] + ls) == After(Next(s, l), ls)
  {
    assert ([l] + ls)[1..] == ls;
  }

  lemma ThreeSteps(s: Sys, m: Sys, c: Sys, l0: Label, l1: Label, l2: Label)
    requires Shape(s) && Enabled(s, l0) && m == Next(s, l0)
    requires Shape(m) && Enabled(m, l1) && c == Next(m, l1)
    requires Shape(c) && Enabled(c, l2)
    ensures Runs(s, [l0, l1, l2]) && After(s, [l0, l1, l2]) == Next(c, l2)
  {
    assert [l2] == [l2] + [] && [l1, l2] == [l1] + [l2] && [l0, l1, l2] == [l0] + [l1, l2];
    OneStep(c, l2, []);
    OneStep(m, l1, [l2]);
    OneStep(s, l0, [l1, l2]);
  }

  lemma StoreChecked(s: Sys, p: Pid, i: nat, v: Block) returns (m: Sys, c: Sys)
    requires Inv(s) && s.fault == Running && CanModify(s, p, i) && s.n < LOGSIZE
    ensures m == DoModify(s, i, v) && Inv(m) && m.fault == Running && CanModify(m, p, i)
    ensures c == DoLogCheck(m, p, i) == m.(checked := m.checked[p := i]) && Inv(c)
  {
    m := DoModify(s, i, v);
    StepKeeps(s, Modify(p, i, v));
    assert |s.ops| >= 1 by { assert s.ops == s.ops - {p} + {p}; }
    c := DoLogCheck(m, p, i);
    StepKeeps(m, LogCheck(p, i));
  }

  /** The assignment disk[b] := v of the file system, with its log_write: on the machine it makes v
      the logical content of b and changes no other block. */
  lemma StoreIsLogged(s: Sys, p: Pid, i: nat, v: Block)
    requires Inv(s) && s.fault == Running && CanModify(s, p, i) && s.n < LOGSIZE
    ensures var ls := [Modify(p, i, v), LogCheck(p, i), LogWrite(p, i)];
            && Runs(s, ls) && Inv(After(s, ls)) && After(s, ls).fault == Running
            && After(s, ls).spec == s.spec[s.buf[i].blockno := v] && After(s, ls).ops == s.ops
            && After(s, ls).stale == s.stale - {s.buf[i].blockno}
  {
    var m, c := StoreChecked(s, p, i, v);
    var t := StoreLogged(c, p, i);
    ThreeSteps(s, m, c, Modify(p, i, v), LogCheck(p, i), LogWrite(p, i));
  }

  lemma StoreLogged(c: Sys, p: Pid, i: nat) returns (t: Sys)
    requires Inv(c) && c.fault == Running && CanLogWrite(c, p, i)
    ensures t == DoLogWrite(c, p, i) && Inv(t) && t.fault == Running && t.ops == c.ops
    ensures t.spec == c.spec[c.buf[i].blockno := c.buf[i].data] && t.stale == c.stale - {c.buf[i].blockno}
  {
    t := DoLogWrite(c, p, i);
    assert Inv(t) by { StepKeeps(c, LogWrite(p, i)); }
    LogWriteInBounds(c, p, i);
  }

  /** With no operation active and no write_log running, a crash now leaves the file system with
      the contents that the operations gave every file, whether or not any of it was installed. */
  lemma RecoversLogical(g: Image, s: Sys)
    requires Reachable(s) && Shape(s) && s.ops == {} && !s.phase.WriteLog? && OnLog(g, s) && LogicalSound(g, s)
    ensures var r := View(s.start, s.disk);
            Sound(g, r) && forall j: nat | j < g.ninodes :: Content(r, Dinodes(g, r), j) == Content(s.spec, Dinodes(g, s.spec), j)
  {
    var r := View(s.start, s.disk);
    forall b: nat | InUse(g, s.spec, b)
      ensures r[b] == s.spec[b]
    {
      CommitsAreDurable(s, b);
      ViewAt(s.start, s.disk, b);
    }
    SoundFrame(g, s.spec, r);
  }

  lemma OutcomeIsLogical(s: Sys, b: nat)
    requires Inv(s) && s.phase.WriteLog? && Home(s, b) && b !in s.stale
    ensures Outcome(s, b) == s.spec[b]
  {
    assert s.tainted == {};
    if !Logged(s, b) {
      assert b !in s.head;
      assert !Pinned(s, b);
    }
  }

  /** A crash keeps a committed file system sound, except one that tears a commit. */
  lemma CrashSound(g: Image, s: Sys)
    requires Inv(s) && OnLog(g, s) && Sound(g, s.saved)
    requires s.phase.WriteLog? ==> LogicalSound(g, s) && (GivesOld(s, s) || GivesNew(s, s))
    ensures Sound(g, View(s.start, s.disk))
  {
    var r := View(s.start, s.disk);
    if !s.phase.WriteLog? || GivesOld(s, s) {
      forall b: nat | InUse(g, s.saved, b)
        ensures r[b] == s.saved[b]
      {
        if !s.phase.WriteLog? { RecoveredIsSaved(s, b); }
        ViewAt(s.start, s.disk, b);
      }
      SoundFrame(g, s.saved, r);
    } else {
      forall b: nat | InUse(g, s.spec, b)
        ensures r[b] == s.spec[b]
      {
        OutcomeIsLogical(s, b);
        ViewAt(s.start, s.disk, b);
      }
      SoundFrame(g, s.spec, r);
    }
  }

  lemma CommitSound(g: Image, s: Sys, i: nat)
    requires Inv(s) && OnLog(g, s) && LogicalSound(g, s) && s.phase.WriteLog? && CanHeadWrite(s, i)
    ensures Sound(g, DoHeadWrite(s, i).saved)
  {
    var t := DoHeadWrite(s, i);
    forall b: nat | InUse(g, s.spec, b)
      ensures t.saved[b] == s.spec[b]
    {
      CommitPoint(s, i, b);
    }
    SoundFrame(g, s.spec, t.saved);
  }

  /** Every commit of the run is of a file system, and no crash tears one. */
  ghost predicate SoundCommits(g: Image, s: Sys, ls: seq<Label>)
    requires Inv(s) && Runs(s, ls)
    decreases |ls|
  {
    && (s.phase.WriteLog? ==> LogicalSound(g, s))
    && (ls != [] ==>
          && (ls[0].Crash? && s.phase.WriteLog? ==> GivesOld(s, s) || GivesNew(s, s))
          && (StepKeeps(s, ls[0]); SoundCommits(g, Next(s, ls[0]), ls[1..])))
  }

  lemma SoundStep(g: Image, s: Sys, l: Label)
    requires Inv(s) && Enabled(s, l) && OnLog(g, s) && Sound(g, s.saved)
    requires s.phase.WriteLog? ==> LogicalSound(g, s) && (l.Crash? ==> GivesOld(s, s) || GivesNew(s, s))
    ensures OnLog(g, Next(s, l)) && Sound(g, Next(s, l).saved)
  {
    if l.Crash? {
      CrashSound(g, s);
    } else if l.HeadWrite? {
      if s.phase.WriteLog? { CommitSound(g, s, l.i); }
    } else {
      SavedStep(s, l);
    }
  }

  /** In every run, with any number of crashes, whose commits are of sound file systems and are not
      torn, recovery always has a sound file system to give. */
  lemma {:induction false} CrashesLeaveSound(g: Image, s: Sys, ls: seq<Label>)
    requires Inv(s) && Runs(s, ls) && OnLog(g, s) && Sound(g, s.saved) && SoundCommits(g, s, ls)
    ensures var t := After(s, ls);
            && Inv(t) && OnLog(g, t) && Sound(g, t.saved)
            && (!t.phase.WriteLog? || GivesOld(t, t) || GivesNew(t, t) ==> Sound(g, View(t.start, t.disk)))
    decreases |ls|
  {
    if ls == [] {
      if !s.phase.WriteLog? || GivesOld(s, s) || GivesNew(s, s) { CrashSound(g, s); }
    } else {
      StepKeeps(s, ls[0]);
      SoundStep(g, s, ls[0]);
      CrashesLeaveSound(g, Next(s, ls[0]), ls[1..]);
    }
  }

  // ---- the stores of the file system, as log_writes ----

  /** `((uint*)data)[i..]` set to ws. */
  function PutWords(b: Block, i: nat, ws: seq<nat>): (r: Block)
    requires i + |ws| <= WORDS && forall k | 0 <= k < |ws| :: ws[k] < UINT
    ensures forall j: nat | j < WORDS :: Word(r, j) == if i <= j < i + |ws| then ws[j - i] else Word(b, j)
    decreases |ws|
  {
    if ws == [] then b else PutWord(PutWords(b, i + 1, ws[1..]), i, ws[0])
  }

  /** iupdate's copy of size and addresses to dinode k of its block. */
  function Iupdated(b: Block, k: nat, n: Inode): (r: Block)
    requires k < IPB && |n.addrs| == NADDR && n.size < UINT && forall k | 0 <= k < NADDR :: n.addrs[k] < UINT
    ensures DinodeAt(r, k) == n
    ensures forall l: nat | l < IPB && l != k :: DinodeAt(r, l) == DinodeAt(b, l)
  {
    var r := PutWords(b, 16 * k + 2, [n.size] + n.addrs);
    assert DinodeAt(r, k).addrs == n.addrs;
    r
  }

  /** Logging data for block b is this store: a block past the inodes, or one inode of an inode block. */
  ghost predicate Logs(g: Image, d: seq<Block>, b: nat, data: Block, st: Store) {
    match st
    case ToBlock(c, w) => b == c && data == w && g.sb.bmapstart <= b
    case ToInode(ino, n) =>
      && ino < g.ninodes && b == g.inodestart + ino / IPB < |d| && DinodeAt(data, ino % IPB) == n
      && forall l: nat | l < IPB && l != ino % IPB :: DinodeAt(data, l) == DinodeAt(d[b], l)
    case Unlogged(_, _) => false
  }

  /** The run's log_writes are, in order, these stores, but for those that are not logged; and it does
      not crash. */
  ghost predicate Follows(g: Image, s: Sys, ls: seq<Label>, sts: seq<Store>)
    requires Runs(s, ls)
    decreases |ls| + |sts|
  {
    if sts != [] && sts[0].Unlogged? then Follows(g, s, ls, sts[1..])
    else if ls == [] then sts == []
    else if ls[0].LogWrite? then
      && sts != [] && ls[0].i < |s.buf| && Logs(g, s.spec, s.buf[ls[0].i].blockno, s.buf[ls[0].i].data, sts[0])
      && Follows(g, Next(s, ls[0]), ls[1..], sts[1..])
    else !ls[0].Crash? && Follows(g, Next(s, ls[0]), ls[1..], sts)
  }

  /** The disk holds the inodes of v in its inode blocks and the blocks of v after them, but for those
      that v has changed without logging. */
  ghost predicate Agrees(g: Image, d: seq<Block>, v: FsDisk) {
    && Area(g, d) && |v.disk| == |d| && Dinodes(g, d) == v.dinodes
    && forall b: nat | g.sb.bmapstart <= b < |d| && b !in v.stale :: d[b] == v.disk[b]
  }

  lemma AgreesNext(g: Image, d: seq<Block>, v: FsDisk, b: nat, data: Block, st: Store)
    requires Agrees(g, d, v) && b < |d| && Logs(g, d, b, data, st)
    ensures Agrees(g, d[b := data], Made(v, st))
  {
    var e := d[b := data];
    forall i: nat | i < g.ninodes
      ensures Dinodes(g, e)[i] == Made(v, st).dinodes[i]
    {
      assert Dinodes(g, d)[i] == v.dinodes[i];
      assert i == i / IPB * IPB + i % IPB;
    }
  }

  lemma OtherSpec(s: Sys, l: Label)
    requires Inv(s) && Enabled(s, l) && !l.Crash? && !l.LogWrite?
    ensures Next(s, l).spec == s.spec
  {
  }

  lemma LogWriteSpec(s: Sys, p: Pid, i: nat)
    requires Inv(s) && Enabled(s, LogWrite(p, i))
    ensures Next(s, LogWrite(p, i)).spec == s.spec[s.buf[i].blockno := s.buf[i].data]
  {
    LogWriteInBounds(s, p, i);
  }

  /** In every run whose log_writes are the file system's stores, what was last logged is the file
      system's disk, with its inodes in the inode blocks. */
  lemma {:induction false} StoresLogged(g: Image, s: Sys, ls: seq<Label>, v: FsDisk, sts: seq<Store>)
    requires Inv(s) && Runs(s, ls) && Agrees(g, s.spec, v) && Follows(g, s, ls, sts)
    ensures Agrees(g, After(s, ls).spec, AllMade(v, sts))
    decreases |ls| + |sts|
  {
    if sts != [] && sts[0].Unlogged? {
      StoresLogged(g, s, ls, Made(v, sts[0]), sts[1..]);
    } else if ls != [] {
      StepKeeps(s, ls[0]);
      if ls[0].LogWrite? {
        LogWriteSpec(s, ls[0].p, ls[0].i);
        AgreesNext(g, s.spec, v, s.buf[ls[0].i].blockno, s.buf[ls[0].i].data, sts[0]);
        StoresLogged(g, Next(s, ls[0]), ls[1..], Made(v, sts[0]), sts[1..]);
      } else {
        OtherSpec(s, ls[0]);
        StoresLogged(g, Next(s, ls[0]), ls[1..], v, sts);
      }
    }
  }

  /** The file system's own account of itself at the end of an operation. */
  ghost predicate FsSound(g: Image, v: FsDisk) {
    Owned(g.sb, v.disk, v.dinodes, {}) && NoHoles(v.disk, v.dinodes) && Tidy(g.sb, v, {})
  }

  lemma AgreedSlots(g: Image, d: seq<Block>, v: FsDisk)
    requires Agrees(g, d, v) && FsSound(g, v)
    ensures forall x | Valid(v.dinodes, x) :: At(d, v.dinodes, x) == At(v.disk, v.dinodes, x)
  {
    AtFrame(v.disk, d, v.dinodes);
  }

  lemma AgreedMarks(g: Image, d: seq<Block>, v: FsDisk)
    requires Agrees(g, d, v) && FsSound(g, v)
    ensures forall y: nat | y < g.sb.size :: FsTree.Marked(g.sb, d, y) == FsTree.Marked(g.sb, v.disk, y)
  {
    forall y: nat | y < g.sb.size
      ensures FsTree.Marked(g.sb, d, y) == FsTree.Marked(g.sb, v.disk, y)
    {
      var b := g.sb.bmapstart + y / Bitmap.BPB;
      assert b < g.sb.data && FsTree.Marked(g.sb, v.disk, b);
    }
  }

  /** A disk that agrees with a sound file system holds a sound file system with the same files. */
  lemma AgreedSound(g: Image, d: seq<Block>, v: FsDisk)
    requires Agrees(g, d, v) && FsSound(g, v)
    ensures Sound(g, d) && forall b: nat | InUse(g, d, b) :: b !in v.stale
    ensures forall j: nat | j < g.ninodes :: Content(d, Dinodes(g, d), j) == Content(v.disk, v.dinodes, j)
  {
    AgreedMarks(g, d, v);
    AgreedSlots(g, d, v);
    OwnedFrame(g.sb, v.disk, v.dinodes, d, v.dinodes);
    AgreedFiles(g, d, v);
  }

  lemma AgreedFiles(g: Image, d: seq<Block>, v: FsDisk)
    requires Agrees(g, d, v) && FsSound(g, v)
    ensures NoHoles(d, v.dinodes)
    ensures forall j: nat | j < g.ninodes :: Content(d, v.dinodes, j) == Content(v.disk, v.dinodes, j)
  {
    var ns := v.dinodes;
    AgreedSlots(g, d, v);
    forall j: nat, n: nat | Mapped(v.disk, ns, j, n)
      ensures Mapped(d, ns, j, n) && d[BlockOf(d, ns, j, n)] == v.disk[BlockOf(v.disk, ns, j, n)]
    {
      var x := Pos(j, PathOf(n));
      assert Valid(ns, x) && At(d, ns, x) == At(v.disk, ns, x) == BlockOf(v.disk, ns, j, n);
    }
    forall j: nat | j < g.ninodes
      ensures Content(d, ns, j) == Content(v.disk, ns, j)
    {
      forall y: nat | y < ns[j].size
        ensures Content(d, ns, j)[y] == Content(v.disk, ns, j)[y]
      {
        InFile(v.disk, ns, j, y);
      }
    }
  }

  /** Operations of the file system that begin on a sound disk and end in a sound state leave a
      logical disk that a commit can take: what CrashesLeaveSound asks of every commit. */
  lemma OperationsSound(g: Image, s: Sys, ls: seq<Label>, v: FsDisk, sts: seq<Store>)
    requires Inv(s) && Runs(s, ls) && Agrees(g, s.spec, v) && Follows(g, s, ls, sts)
    requires FsSound(g, AllMade(v, sts)) && After(s, ls).stale <= AllMade(v, sts).stale
    ensures LogicalSound(g, After(s, ls))
    ensures var d, w := After(s, ls).spec, AllMade(v, sts);
            Sound(g, d) && forall j: nat | j < g.ninodes :: Content(d, Dinodes(g, d), j) == Content(w.disk, w.dinodes, j)
  {
    StoresLogged(g, s, ls, v, sts);
    AgreedSound(g, After(s, ls).spec, AllMade(v, sts));
  }

  /** What FileSystem's methods keep, at the end of every one of them, is this soundness of their stores. */
  lemma MethodsSound(fs: FileSystem.Fs, g: Image)
    requires fs.Sound() && g.sb == fs.sb
    ensures FsSound(g, AllMade(fs.boot, fs.trace))
  {
  }

  /** Calls of FileSystem's methods, as runs of the log: if the logical disk agreed with the stores made
      before, and the log_writes since then are the stores since then, a commit now is of a sound file
      system with the contents that the methods promise. */
  lemma MethodsOnLog(fs: FileSystem.Fs, g: Image, s: Sys, ls: seq<Label>, before: seq<Store>, sts: seq<Store>)
    requires fs.Sound() && g.sb == fs.sb && fs.trace == before + sts
    requires Inv(s) && Runs(s, ls) && Agrees(g, s.spec, AllMade(fs.boot, before)) && Follows(g, s, ls, sts)
    requires After(s, ls).stale <= AllMade(fs.boot, fs.trace).stale
    ensures LogicalSound(g, After(s, ls)) && Agrees(g, After(s, ls).spec, AllMade(fs.boot, fs.trace))
    ensures var d := After(s, ls).spec;
            && g.ninodes == |fs.inodes|
            && forall j: nat | j < g.ninodes :: Content(d, Dinodes(g, d), j) == Content(fs.disk[..], fs.inodes, j)
  {
    MadeInTurn(fs.boot, before, sts);
    MethodsSound(fs, g);
    StoresLogged(g, s, ls, AllMade(fs.boot, before), sts);
    OperationsSound(g, s, ls, AllMade(fs.boot, before), sts);
  }
}
