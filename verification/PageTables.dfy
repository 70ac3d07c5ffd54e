/** 32-bit two-level page tables in memory, the flat map they stand for, and who owns each frame.

    A frame is a page of physical memory, known by its number. A page is 1024 words of 32 bits;
    a page directory or page table entry is a word with a frame number above 12 bits of flags.
 */
module PageTables {
  import opened Common

  const PGSIZE: nat := 4096
  const ENTRIES: nat := 1024
  const KERNBASE: nat := 0x8000_0000
  const EXTMEM: nat := 0x10_0000
  const PHYSTOP: nat := 0xE00_0000
  const DEVSPACE: nat := 0xFE00_0000
  const PTE_P: nat := 1
  const PTE_W: nat := 2
  const PTE_U: nat := 4

  /** Pages of the address space, and those below KERNBASE. */
  const NPAGES: nat := 0x10_0000
  const USERPAGES: nat := 0x8_0000
  const USERSLOTS: nat := 512

  type Frame = nat

  type Page = s: seq<nat> | |s| == ENTRIES witness seq(ENTRIES, _ => 0)

  type Mem = map<Frame, Page>

  predicate Present(w: nat) { w % 2 == 1 }

  function FrameOf(w: nat): (f: Frame) { w / PGSIZE }

  function Flags(w: nat): (x: nat) { w % PGSIZE }

  /** `pa | perm | PTE_P` for a page-aligned pa. */
  function Entry(f: Frame, perm: nat): (w: nat)
    requires perm < PGSIZE
  {
    f * PGSIZE + if Present(perm) then perm else perm + 1
  }

  lemma EntryFields(f: Frame, perm: nat)
    requires perm < PGSIZE
    ensures var w := Entry(f, perm);
            Present(w) && FrameOf(w) == f && Flags(w) == if Present(perm) then perm else perm + 1
  {
    var x := if Present(perm) then perm else perm + 1;
    assert Entry(f, perm) == f * PGSIZE + x && x % 2 == 1;
    Divided(f, x);
    LowBit(f * 2048, x);
  }

  lemma LowBit(a: nat, x: nat)
    ensures (2 * a + x) % 2 == x % 2
  {
  }

  lemma Divided(f: nat, x: nat)
    requires x < PGSIZE
    ensures (f * PGSIZE + x) / PGSIZE == f && (f * PGSIZE + x) % PGSIZE == x
  {
  }

  lemma FlagsPresent(w: nat)
    ensures Present(Flags(w)) == Present(w)
  {
  }

  /** The entry at an index of the table in a slot of directory d, if both levels are present. */
  function Leaf(m: Mem, d: Frame, i: nat, j: nat): (r: Option<nat>)
    requires i < ENTRIES && j < ENTRIES
  {
    if d !in m || !Present(m[d][i]) || FrameOf(m[d][i]) !in m then None
    else
      var w := m[FrameOf(m[d][i])][j];
      if Present(w) then Some(w) else None
  }

  /** The flat map: the entry for page v of the address space. */
  function Lookup(m: Mem, d: Frame, v: nat): (r: Option<nat>) {
    if v < NPAGES then Leaf(m, d, v / ENTRIES, v % ENTRIES) else None
  }

  // ---- ownership ----

  /** What a frame is used for: on the free list; handed out by kalloc; a page directory; the page
      table in a slot of a directory; the frame mapped at an index of a slot of a directory. */
  datatype Use = Free | Held | Dir | Table(dir: Frame, slot: nat) | User(dir: Frame, slot: nat, index: nat)

  type Uses = map<Frame, Use>

  /** Each present directory entry points to the table made for it and allows every access. */
  ghost predicate DirsOk(m: Mem, u: Uses)
    requires m.Keys == u.Keys
  {
    forall d, i {:trigger m[d][i]} | d in u && u[d].Dir? && 0 <= i < ENTRIES && Present(m[d][i]) ::
      && FrameOf(m[d][i]) in u && u[FrameOf(m[d][i])] == Table(d, i)
      && Flags(m[d][i]) == PTE_P + PTE_W + PTE_U
  }

  /** Each table is in the slot it was made for. */
  ghost predicate TablesOk(m: Mem, u: Uses)
    requires m.Keys == u.Keys
  {
    forall t {:trigger u[t].slot} | t in u && u[t].Table? ::
      && u[t].slot < ENTRIES && u[t].dir in u && u[u[t].dir].Dir?
      && Present(m[u[t].dir][u[t].slot]) && FrameOf(m[u[t].dir][u[t].slot]) == t
  }

  /** Each present user entry points to the frame mapped there. */
  ghost predicate EntriesOk(m: Mem, u: Uses)
    requires m.Keys == u.Keys
  {
    forall t, j {:trigger m[t][j], u[t].slot} | t in u && u[t].Table? && u[t].slot < USERSLOTS && 0 <= j < ENTRIES && Present(m[t][j]) ::
      FrameOf(m[t][j]) in u && u[FrameOf(m[t][j])] == User(u[t].dir, u[t].slot, j)
  }

  /** Each user frame is mapped where it was put. */
  ghost predicate UsersOk(m: Mem, u: Uses)
    requires m.Keys == u.Keys
  {
    forall f {:trigger u[f].index} | f in u && u[f].User? :: u[f].slot < USERSLOTS && u[f].index < ENTRIES && MapsTo(m, u, u[f].dir, u[f].slot, u[f].index, f)
  }

  ghost predicate MapsTo(m: Mem, u: Uses, d: Frame, i: nat, j: nat, f: Frame)
    requires m.Keys == u.Keys && i < ENTRIES && j < ENTRIES
  {
    && d in u && u[d].Dir? && Present(m[d][i]) && FrameOf(m[d][i]) in u
    && Present(m[FrameOf(m[d][i])][j]) && FrameOf(m[FrameOf(m[d][i])][j]) == f
  }

  /** Tables and uses agree: no frame has two owners and no owned frame is lost. */
  ghost predicate Tied(m: Mem, u: Uses) {
    m.Keys == u.Keys && DirsOk(m, u) && TablesOk(m, u) && EntriesOk(m, u) && UsersOk(m, u)
  }

  /** Words change that are neither directory nor table entries. */
  lemma ContentsTied(m: Mem, u: Uses, f: Frame, p: Page)
    requires Tied(m, u) && f in u && !u[f].Dir? && !u[f].Table?
    ensures Tied(m[f := p], u)
  {
  }

  lemma ContentsLeaf(m: Mem, u: Uses, f: Frame, p: Page, d: Frame, i: nat, j: nat)
    requires Tied(m, u) && f in u && !u[f].Dir? && !u[f].Table? && d in u && u[d].Dir? && i < ENTRIES && j < ENTRIES
    ensures Leaf(m[f := p], d, i, j) == Leaf(m, d, i, j)
  {
  }

  predicate Unlinked(x: Use) { x.Free? || x.Held? }

  lemma UseTied(m: Mem, u: Uses, f: Frame, x: Use)
    requires Tied(m, u) && f in u && Unlinked(u[f]) && Unlinked(x)
    ensures Tied(m, u[f := x])
  {
  }

  /** A cleared page becomes a directory. */
  lemma DirTied(m: Mem, u: Uses, d: Frame)
    requires Tied(m, u) && d in u && Unlinked(u[d]) && forall i | 0 <= i < ENTRIES :: !Present(m[d][i])
    ensures Tied(m, u[d := Dir])
  {
  }

  /** A cleared page becomes the table of an empty slot. */
  lemma TableTied(m: Mem, u: Uses, d: Frame, i: nat, t: Frame, w: nat)
    requires Tied(m, u) && d in u && u[d].Dir? && i < ENTRIES && !Present(m[d][i]) && t in u && Unlinked(u[t])
    requires (forall j | 0 <= j < ENTRIES :: !Present(m[t][j])) && Present(w) && FrameOf(w) == t
    requires Flags(w) == PTE_P + PTE_W + PTE_U
    ensures Tied(m[d := m[d][i := w]], u[t := Table(d, i)])
  {
  }

  lemma TableLeaf(m: Mem, u: Uses, d: Frame, i: nat, t: Frame, w: nat, e: Frame, k: nat, l: nat)
    requires Tied(m, u) && d in u && u[d].Dir? && i < ENTRIES && !Present(m[d][i]) && t in u && Unlinked(u[t])
    requires (forall j | 0 <= j < ENTRIES :: !Present(m[t][j])) && Present(w) && FrameOf(w) == t
    requires e in u && u[e].Dir? && k < ENTRIES && l < ENTRIES
    ensures Leaf(m[d := m[d][i := w]], e, k, l) == Leaf(m, e, k, l)
  {
  }

  /** A held frame is mapped at an empty user page. */
  lemma UserTied(m: Mem, u: Uses, t: Frame, j: nat, f: Frame, w: nat)
    requires Tied(m, u) && t in u && u[t].Table? && u[t].slot < USERSLOTS && j < ENTRIES && !Present(m[t][j])
    requires f in u && Unlinked(u[f]) && Present(w) && FrameOf(w) == f
    ensures Tied(m[t := m[t][j := w]], u[f := User(u[t].dir, u[t].slot, j)])
  {
  }

  /** Entries above KERNBASE own nothing. */
  lemma KernelTied(m: Mem, u: Uses, t: Frame, j: nat, w: nat)
    requires Tied(m, u) && t in u && u[t].Table? && u[t].slot >= USERSLOTS && j < ENTRIES
    ensures Tied(m[t := m[t][j := w]], u)
  {
  }

  /** A user page is unmapped and its frame given back. */
  lemma UnmapTied(m: Mem, u: Uses, t: Frame, j: nat, x: Use)
    requires Tied(m, u) && t in u && u[t].Table? && u[t].slot < USERSLOTS && j < ENTRIES && Present(m[t][j]) && Unlinked(x)
    ensures FrameOf(m[t][j]) in u && u[FrameOf(m[t][j])] == User(u[t].dir, u[t].slot, j)
    ensures Tied(m[t := m[t][j := 0]], u[FrameOf(m[t][j]) := x])
  {
  }

  /** Writing one table entry changes one page of one address space. */
  lemma EntryLeaf(m: Mem, u: Uses, t: Frame, j: nat, w: nat, e: Frame, k: nat, l: nat)
    requires Tied(m, u) && t in u && u[t].Table? && j < ENTRIES && e in u && u[e].Dir? && k < ENTRIES && l < ENTRIES
    ensures Leaf(m[t := m[t][j := w]], e, k, l)
            == if e == u[t].dir && k == u[t].slot && l == j then if Present(w) then Some(w) else None
               else Leaf(m, e, k, l)
  {
  }

  // ---- what the processor allows ----

  predicate Writable(w: nat) { w / PTE_W % 2 == 1 }

  predicate UserMay(w: nat) { w / PTE_U % 2 == 1 }

  datatype Access = Access(frame: Frame, writable: bool, user: bool)

  /** The access to address va of space d: what the entries of both levels allow. The upper ten bits
      of va choose the entry of the directory, the ten below the entry of the table. */
  function AccessAt(m: Mem, d: Frame, va: nat): (r: Option<Access>) {
    if va >= 0x1_0000_0000 || d !in m then None
    else
      var e := m[d][va / 0x40_0000];
      if !Present(e) || FrameOf(e) !in m then None
      else
        var w := m[FrameOf(e)][va / 0x1000 % 0x400];
        if Present(w) then Some(Access(FrameOf(w), Writable(e) && Writable(w), UserMay(e) && UserMay(w))) else None
  }

  lemma FlagBits(w: nat)
    ensures Writable(w) == Writable(Flags(w)) && UserMay(w) == UserMay(Flags(w))
  {
    var q, r := w / PGSIZE, w % PGSIZE;
    Shifted(2048 * q, 1024 * q, r);
    LowBit(1024 * q, r / 2);
    LowBit(512 * q, r / 4);
  }

  lemma Shifted(a: nat, b: nat, r: nat)
    ensures (2 * a + r) / 2 == a + r / 2 && (4 * b + r) / 4 == b + r / 4
  {
  }

  lemma SplitAddress(va: nat)
    ensures va / 0x40_0000 == va / PGSIZE / ENTRIES
  {
  }

  /** Directories restrict nothing: the access to an address is what the flat map's entry for its page
      allows. */
  lemma AccessIsEntry(m: Mem, u: Uses, d: Frame, va: nat)
    requires Tied(m, u) && d in u && u[d].Dir? && va < 0x1_0000_0000
    ensures AccessAt(m, d, va) == match Lookup(m, d, va / PGSIZE)
                                  case None => None
                                  case Some(w) => Some(Access(FrameOf(w), Writable(w), UserMay(w)))
  {
    SplitAddress(va);
    var e := m[d][va / 0x40_0000];
    if Present(e) { FlagBits(e); }
  }
}
