/** The kernel's part of every address space, and spaces under construction. */
module KernelMap {
  import opened Common
  import opened PageTables
  import opened AddressSpaces

  /** A row of kmap, in pages: k pages from page v on are frames from f on. */
  datatype Segment = Segment(v: nat, k: nat, f: Frame, perm: nat)

  /** The four rows: I/O space, kernel text, kernel data and free memory, devices. `data` is the
      frame where the kernel's data begin. */
  function Kmap(data: Frame, i: nat): (s: Segment)
    requires EXTMEM / PGSIZE < data < PHYSTOP / PGSIZE
    ensures 0 < s.k && USERPAGES <= s.v && s.v + s.k <= NPAGES && s.perm < PGSIZE
  {
    if i == 0 then Segment(USERPAGES, EXTMEM / PGSIZE, 0, PTE_W)
    else if i == 1 then Segment(USERPAGES + EXTMEM / PGSIZE, data - EXTMEM / PGSIZE, EXTMEM / PGSIZE, 0)
    else if i == 2 then Segment(USERPAGES + data, PHYSTOP / PGSIZE - data, data, PTE_W)
    else Segment(DEVSPACE / PGSIZE, NPAGES - DEVSPACE / PGSIZE, DEVSPACE / PGSIZE, PTE_W)
  }

  predicate InSegment(s: Segment, x: nat) { s.v <= x < s.v + s.k }

  function SegmentEntry(s: Segment, x: nat): (r: Option<nat>)
    requires InSegment(s, x) && s.perm < PGSIZE
  {
    Some(Entry(s.f + x - s.v, s.perm))
  }

  /** What page x reads as when the first n rows are in place. */
  function KernelEntry(data: Frame, n: nat, x: nat): (r: Option<nat>)
    requires EXTMEM / PGSIZE < data < PHYSTOP / PGSIZE
  {
    if n > 0 && InSegment(Kmap(data, 0), x) then SegmentEntry(Kmap(data, 0), x)
    else if n > 1 && InSegment(Kmap(data, 1), x) then SegmentEntry(Kmap(data, 1), x)
    else if n > 2 && InSegment(Kmap(data, 2), x) then SegmentEntry(Kmap(data, 2), x)
    else if n > 3 && InSegment(Kmap(data, 3), x) then SegmentEntry(Kmap(data, 3), x)
    else None
  }

  /** The rows do not overlap, so the order of mapping does not matter. */
  lemma SegmentsDisjoint(data: Frame, n: nat, x: nat)
    requires EXTMEM / PGSIZE < data < PHYSTOP / PGSIZE && n < 4 && InSegment(Kmap(data, n), x)
    ensures KernelEntry(data, n, x) == None && KernelEntry(data, n + 1, x) == SegmentEntry(Kmap(data, n), x)
  {
  }

  lemma SegmentElsewhere(data: Frame, n: nat, x: nat)
    requires EXTMEM / PGSIZE < data < PHYSTOP / PGSIZE && n < 4 && !InSegment(Kmap(data, n), x)
    ensures KernelEntry(data, n + 1, x) == KernelEntry(data, n, x)
  {
  }

  /** All of physical memory is mapped at KERNBASE, in order, writable but for the kernel's text. */
  lemma PhysicalAtKernbase(data: Frame, f: Frame)
    requires EXTMEM / PGSIZE < data < PHYSTOP / PGSIZE && f < PHYSTOP / PGSIZE
    ensures KernelEntry(data, 4, USERPAGES + f) == Some(Entry(f, if EXTMEM / PGSIZE <= f < data then 0 else PTE_W))
  {
  }

  /** The devices' pages read as themselves, writable. */
  lemma DevicesInPlace(data: Frame, x: nat)
    requires EXTMEM / PGSIZE < data < PHYSTOP / PGSIZE && DEVSPACE / PGSIZE <= x < NPAGES
    ensures KernelEntry(data, 4, x) == Some(Entry(x, PTE_W))
  {
  }

  /** No other page is mapped, below KERNBASE or above. */
  lemma NothingElseMapped(data: Frame, x: nat)
    requires EXTMEM / PGSIZE < data < PHYSTOP / PGSIZE && x < NPAGES
    requires !(DEVSPACE / PGSIZE <= x) && !(USERPAGES <= x < USERPAGES + PHYSTOP / PGSIZE)
    ensures KernelEntry(data, 4, x) == None
  {
  }

  /** The kernel's part of a space, page by page: physical memory at KERNBASE, in order, writable but
      for the kernel's text; the devices at their own addresses, writable; nothing else. */
  ghost predicate KernelAt(m: Mem, d: Frame, data: Frame, x: nat) {
    if DEVSPACE / PGSIZE <= x < NPAGES then Lookup(m, d, x) == Some(Entry(x, PTE_W))
    else if USERPAGES <= x < USERPAGES + PHYSTOP / PGSIZE then
      var f := x - USERPAGES; Lookup(m, d, x) == Some(Entry(f, if EXTMEM / PGSIZE <= f < data then 0 else PTE_W))
    else Lookup(m, d, x) == None
  }

  lemma RowsMean(m: Mem, d: Frame, data: Frame, x: nat)
    requires EXTMEM / PGSIZE < data < PHYSTOP / PGSIZE && x < NPAGES && Lookup(m, d, x) == KernelEntry(data, 4, x)
    ensures KernelAt(m, d, data, x)
  {
    if DEVSPACE / PGSIZE <= x {
      DevicesInPlace(data, x);
    } else if USERPAGES <= x < USERPAGES + PHYSTOP / PGSIZE {
      PhysicalAtKernbase(data, x - USERPAGES);
    } else {
      NothingElseMapped(data, x);
    }
  }

  lemma ReadsKernelAt(m: Mem, d: Frame, data: Frame)
    requires EXTMEM / PGSIZE < data < PHYSTOP / PGSIZE && ReadsKernel(m, d, data, 4)
    ensures forall x | 0 <= x < NPAGES :: KernelAt(m, d, data, x)
  {
    forall x | 0 <= x < NPAGES ensures KernelAt(m, d, data, x) {
      RowsMean(m, d, data, x);
    }
  }

  /** Space d reads as the first n rows say. */
  ghost predicate ReadsKernel(m: Mem, d: Frame, data: Frame, n: nat)
    requires EXTMEM / PGSIZE < data < PHYSTOP / PGSIZE
  {
    forall x | 0 <= x < NPAGES :: Lookup(m, d, x) == KernelEntry(data, n, x)
  }

  lemma NextSegment(m: Mem, u: Uses, n: Mem, d: Frame, data: Frame, i: nat)
    requires EXTMEM / PGSIZE < data < PHYSTOP / PGSIZE && i < 4 && IsDir(u, d) && ReadsKernel(m, d, data, i)
    requires var s := Kmap(data, i); MapsRange(m, u, n, d, s.v, s.k, s.f, s.perm)
    ensures ReadsKernel(n, d, data, i + 1)
  {
    forall x | 0 <= x < NPAGES ensures Lookup(n, d, x) == KernelEntry(data, i + 1, x) {
      if InSegment(Kmap(data, i), x) {
        SegmentsDisjoint(data, i, x);
      } else {
        SegmentElsewhere(data, i, x);
      }
    }
  }

  lemma SegmentVacant(m: Mem, d: Frame, data: Frame, i: nat)
    requires EXTMEM / PGSIZE < data < PHYSTOP / PGSIZE && i < 4 && ReadsKernel(m, d, data, i)
    ensures var s := Kmap(data, i); Vacant(m, d, s.v, s.k)
  {
    var s := Kmap(data, i);
    forall x | s.v <= x < s.v + s.k ensures Lookup(m, d, x).None? {
      SegmentsDisjoint(data, i, x);
    }
  }

  // ---- the kernel's page tables ----

  /** How many page tables the rows need. */
  const KTABLES: nat := 64

  predicate Between(a: nat, b: nat, i: nat) { a <= i < b }

  ghost function Range(a: nat, b: nat): (s: set<nat>) { set i: nat | i < b && Between(a, b, i) }

  ghost function KernelSlots(): (s: set<nat>) { Range(512, 568) + Range(1016, 1024) }

  /** The slots of the first n rows. */
  ghost function RowSlots(data: Frame, n: nat): (s: set<nat>)
    requires EXTMEM / PGSIZE < data < PHYSTOP / PGSIZE
  {
    if n == 0 then {} else RowSlots(data, n - 1) + SlotsOf(Kmap(data, n - 1).v, Kmap(data, n - 1).k)
  }

  lemma {:induction false} RangeSize(a: nat, b: nat)
    requires a <= b
    ensures |Range(a, b)| == b - a
    decreases b - a
  {
    if a < b {
      RangeSize(a, b - 1);
      assert Range(a, b) == Range(a, b - 1) + {b - 1};
    } else {
      assert Range(a, b) == {};
    }
  }

  lemma KernelTables()
    ensures |KernelSlots()| == KTABLES
  {
    RangeSize(512, 568);
    RangeSize(1016, 1024);
    assert Range(512, 568) !! Range(1016, 1024);
  }

  lemma RowWithin(data: Frame, n: nat, i: nat)
    requires EXTMEM / PGSIZE < data < PHYSTOP / PGSIZE && n < 4 && i < ENTRIES && SlotOf(Kmap(data, n).v, Kmap(data, n).k, i)
    ensures i in KernelSlots()
  {
  }

  lemma RowsWithin(data: Frame, n: nat)
    requires EXTMEM / PGSIZE < data < PHYSTOP / PGSIZE && n <= 4
    ensures RowSlots(data, n) <= KernelSlots()
  {
    if n > 0 {
      RowsWithin(data, n - 1);
      forall i | i in SlotsOf(Kmap(data, n - 1).v, Kmap(data, n - 1).k) ensures i in KernelSlots() {
        RowWithin(data, n - 1, i);
      }
    }
  }

  /** Between them the rows need tables for these slots, whatever the size of the kernel. */
  lemma RowsCover(data: Frame)
    requires EXTMEM / PGSIZE < data < PHYSTOP / PGSIZE
    ensures RowSlots(data, 4) == KernelSlots()
  {
    RowsWithin(data, 4);
    forall i | i in KernelSlots() ensures i in RowSlots(data, 4) {
      var n := if i >= 1016 then 3 else if i * ENTRIES < USERPAGES + data && USERPAGES + EXTMEM / PGSIZE < (i + 1) * ENTRIES then 1 else 2;
      RowAmong(data, n, 4, i);
    }
  }

  lemma {:induction false} RowAmong(data: Frame, n: nat, m: nat, i: nat)
    requires EXTMEM / PGSIZE < data < PHYSTOP / PGSIZE && n < m <= 4 && i < ENTRIES && SlotOf(Kmap(data, n).v, Kmap(data, n).k, i)
    ensures i in RowSlots(data, m)
    decreases m
  {
    if n < m - 1 { RowAmong(data, n, m - 1, i); }
  }

  /** A row that stops for want of a table leaves the kernel's tables incomplete. */
  lemma RowShort(s: set<nat>, data: Frame, n: nat, done: nat, at: nat)
    requires EXTMEM / PGSIZE < data < PHYSTOP / PGSIZE && n < 4 && done < Kmap(data, n).k && at == Kmap(data, n).v + done
    requires s == RowSlots(data, n) + SlotsOf(Kmap(data, n).v, done) && at / ENTRIES !in s
    ensures |s| < KTABLES
  {
    RowsWithin(data, n);
    forall i | i in SlotsOf(Kmap(data, n).v, done) ensures i in KernelSlots() {
      RowWithin(data, n, i);
    }
    RowWithin(data, n, at / ENTRIES);
    FewerSlots(s, at / ENTRIES);
  }

  lemma FewerSlots(s: set<nat>, i: nat)
    requires s <= KernelSlots() && i in KernelSlots() && i !in s
    ensures |s| < KTABLES
  {
    KernelTables();
    assert s <= KernelSlots() - {i};
    Subset(s, KernelSlots() - {i});
  }

  lemma {:induction false} Subset(a: set<nat>, b: set<nat>)
    requires a <= b
    ensures |a| <= |b|
    decreases |a|
  {
    if x :| x in a { Subset(a - {x}, b - {x}); }
  }

  // ---- spaces under construction ----

  /** d is a new directory; frames taken since then are its own or, those in `held`, in hand. */
  ghost predicate NewSpace(u: Uses, w: Uses, d: Frame, held: set<Frame>) {
    && w.Keys == u.Keys && d in u && u[d].Free? && w[d].Dir?
    && (forall g | g in held :: g in u && u[g].Free?)
    && (forall g | g in u && g != d :: !BelongsTo(u[g], g, d))
    && forall g | g in u ::
         w[g] == u[g] || (u[g].Free? && (BelongsTo(w[g], g, d) || (g in held && w[g].Held?)))
  }

  /** What was in use before is as it was: every space reads the same and every page keeps its words. */
  ghost predicate Intact(m: Mem, u: Uses, n: Mem)
    requires m.Keys == u.Keys
  {
    && n.Keys == m.Keys && (forall g | g in u && !u[g].Free? :: n[g] == m[g])
    && forall e, x | IsDir(u, e) && 0 <= x < NPAGES :: Lookup(n, e, x) == Lookup(m, e, x)
  }

  lemma NewSpaceMaps(m: Mem, u: Uses, n: Mem, w: Uses, q: Mem, y: Uses, d: Frame, held: set<Frame>,
                     v: nat, k: nat, f: Frame, perm: nat)
    requires m.Keys == u.Keys && n.Keys == w.Keys && perm < PGSIZE && NewSpace(u, w, d, held) && Intact(m, u, n)
    requires MappedTo(n, w, q, y, d, v, k, f, perm) && Handed(w, v, k, f)
    requires forall g | f <= g < f + k && v + g - f < USERPAGES :: g in held
    ensures NewSpace(u, y, d, held) && Intact(m, u, q)
  {
    assert forall g | f <= g < f + k && v + g - f < USERPAGES :: g in w && w[g].Held?;
    forall g | g in u && !u[g].Free? ensures q[g] == m[g] {
      assert w[g] == u[g] && !PagingOf(w[g], g, d);
    }
  }

  lemma NewSpaceStarts(m: Mem, u: Uses, d: Frame, data: Frame)
    requires Tied(m, u) && d in u && u[d].Free? && EXTMEM / PGSIZE < data < PHYSTOP / PGSIZE
    ensures NewSpace(u, u[d := Dir], d, {}) && Intact(m, u, m[d := Cleared()]) && ReadsKernel(m[d := Cleared()], d, data, 0)
  {
    forall g | g in u && g != d ensures !BelongsTo(u[g], g, d) {
      if u[g].Table? {
        assert u[g].slot < ENTRIES;
      } else if u[g].User? {
        assert u[g].index < ENTRIES;
      }
    }
    PageWritten(m, u, d, Cleared());
  }

  /** Writing a page that is neither directory nor table changes no space. */
  lemma PageWritten(m: Mem, u: Uses, f: Frame, p: Page)
    requires Tied(m, u) && f in u && Unlinked(u[f])
    ensures forall e, x | IsDir(u, e) && 0 <= x < NPAGES :: Lookup(m[f := p], e, x) == Lookup(m, e, x)
  {
    forall e, x | IsDir(u, e) && 0 <= x < NPAGES ensures Lookup(m[f := p], e, x) == Lookup(m, e, x) {
      ContentsLeaf(m, u, f, p, e, x / ENTRIES, x % ENTRIES);
    }
  }

  /** Pages in use keep their words, and no page but p of d reads otherwise. */
  ghost predicate OnePage(n: Mem, w: Uses, q: Mem, d: Frame, p: nat)
    requires n.Keys == w.Keys
  {
    Kept(n, w, q, d) && forall e, x | IsDir(w, e) && 0 <= x < NPAGES && !(e == d && x == p) :: Lookup(q, e, x) == Lookup(n, e, x)
  }

  /** A free frame taken, written and mapped at page p. */
  lemma MappedOne(n: Mem, w: Uses, f: Frame, c: Page, q: Mem, y: Uses, d: Frame, p: nat, perm: nat)
    requires Tied(n, w) && f in w && w[f].Free? && perm < PGSIZE
    requires MappedTo(n[f := c], w[f := Held], q, y, d, p, 1, f, perm)
    ensures OnePage(n, w, q, d, p)
  {
    PageWritten(n, w, f, c);
    forall e, x | IsDir(w, e) && 0 <= x < NPAGES && !(e == d && x == p) ensures Lookup(q, e, x) == Lookup(n, e, x) {
      assert IsDir(w[f := Held], e);
    }
  }

  lemma IntactWritten(m: Mem, u: Uses, n: Mem, w: Uses, d: Frame, f: Frame, p: Page)
    requires m.Keys == u.Keys && Tied(n, w) && Intact(m, u, n) && NewSpace(u, w, d, {f}) && w[f].Held?
    ensures Intact(m, u, n[f := p])
  {
    PageWritten(n, w, f, p);
    assert forall e | IsDir(u, e) :: IsDir(w, e);
  }

  lemma NewSpaceTakes(u: Uses, w: Uses, d: Frame, f: Frame)
    requires NewSpace(u, w, d, {}) && f in w && w[f].Free?
    ensures NewSpace(u, w[f := Held], d, {f})
  {
  }

  lemma NewSpaceGave(u: Uses, w: Uses, d: Frame, f: Frame)
    requires NewSpace(u, w, d, {f}) && w[f].User?
    ensures NewSpace(u, w, d, {})
  {
  }

  lemma NewSpaceMapsOne(m: Mem, u: Uses, n: Mem, w: Uses, q: Mem, y: Uses, d: Frame, p: nat, f: Frame, perm: nat)
    requires m.Keys == u.Keys && n.Keys == w.Keys && perm < PGSIZE && NewSpace(u, w, d, {f}) && w[f].Held? && Intact(m, u, n)
    requires p < USERPAGES && MappedTo(n, w, q, y, d, p, 1, f, perm)
    ensures NewSpace(u, y, d, {}) && Intact(m, u, q)
  {
    assert NewSpace(u, y, d, {f}) && Intact(m, u, q) by { NewSpaceMaps(m, u, n, w, q, y, d, {f}, p, 1, f, perm); }
    assert IsUserAt(y[f], d, p);
    NewSpaceGave(u, y, d, f);
  }

  lemma NewSpaceFreed(u: Uses, w: Uses, d: Frame, f: Frame)
    requires NewSpace(u, w, d, {f}) && w[f].Held?
    ensures NewSpace(u, w[f := Free], d, {})
  {
  }

  /** Releasing a new space gives back every frame taken for it: the uses are what they were. */
  lemma Undone(m: Mem, u: Uses, n: Mem, w: Uses, q: Mem, y: Uses, d: Frame)
    requires m.Keys == u.Keys == n.Keys == w.Keys && NewSpace(u, w, d, {}) && Intact(m, u, n)
    requires Released(w, y, d) && Kept(n, y, q, d) && OthersSame(n, w, q, d)
    ensures y == u && Intact(m, u, q)
  {
    forall g | g in u ensures y[g] == u[g] {
      assert w[g] == u[g] || BelongsTo(w[g], g, d);
    }
    forall e, x | IsDir(u, e) && 0 <= x < NPAGES ensures Lookup(q, e, x) == Lookup(m, e, x) {
      assert IsDir(w, e);
    }
  }

  // ---- copies ----

  ghost predicate HasTable(m: Mem, s: Frame, p: nat) { s in m && p < NPAGES && Present(m[s][p / ENTRIES]) }

  /** Every page below p has a page table, present or not. */
  ghost predicate Walkable(m: Mem, s: Frame, p: nat) { forall x | 0 <= x < p :: HasTable(m, s, x) }

  /** The slots of the pages below p that are present in space s. */
  ghost function SlotsBelow(m: Mem, s: Frame, p: nat): (t: set<nat>) {
    if p == 0 then {} else SlotsBelow(m, s, p - 1) + if Lookup(m, s, p - 1).Some? then {(p - 1) / ENTRIES} else {}
  }

  /** The frames of a copy of the pages of s below p: its directory and the kernel's tables, one for
      each page that is present, and one more for the first of them in each slot. */
  ghost function CopyNeed(m: Mem, s: Frame, p: nat): (n: nat) {
    if p == 0 then 1 + KTABLES
    else if Lookup(m, s, p - 1).None? then CopyNeed(m, s, p - 1)
    else CopyNeed(m, s, p - 1) + if (p - 1) / ENTRIES in SlotsBelow(m, s, p - 1) then 1 else 2
  }

  /** Directory d of memory n has tables for the kernel and for the pages of s below p, and of a frames
      that were free b are left. */
  ghost predicate CopyCharged(m: Mem, a: nat, n: Mem, b: nat, s: Frame, d: Frame, p: nat) {
    d in n && Slots(n[d]) == KernelSlots() + SlotsBelow(m, s, p) && a == b + CopyNeed(m, s, p)
  }

  lemma CopyNeedNext(m: Mem, s: Frame, t: Page, p: nat)
    requires p < USERPAGES && Slots(t) == KernelSlots() + SlotsBelow(m, s, p) && Lookup(m, s, p).Some?
    ensures CopyNeed(m, s, p + 1) == CopyNeed(m, s, p) + 1 + TableCost(t, p)
    ensures KernelSlots() + SlotsBelow(m, s, p + 1) == Slots(t) + {p / ENTRIES}
  {
    assert p / ENTRIES !in KernelSlots();
    assert SlotsBelow(m, s, p + 1) == SlotsBelow(m, s, p) + {p / ENTRIES};
  }

  lemma CopyChargedNext(m: Mem, a: nat, n: Mem, b: nat, q: Mem, c: nat, s: Frame, d: Frame, p: nat)
    requires p < USERPAGES && CopyCharged(m, a, n, b, s, d, p)
    requires if Lookup(m, s, p).Some? then Paid(n, b, q, c, d, p, 1) else q == n && c == b
    ensures CopyCharged(m, a, q, c, s, d, p + 1)
  {
    if Lookup(m, s, p).Some? { CopyNeedNext(m, s, n[d], p); }
  }

  lemma {:induction false} CopyNeedGrows(m: Mem, s: Frame, p: nat, q: nat)
    requires p <= q
    ensures CopyNeed(m, s, p) <= CopyNeed(m, s, q)
    decreases q
  {
    if p < q {
      CopyNeedGrows(m, s, p, q - 1);
    }
  }

  /** A frames are too few for the pages of s below n, as far as they have tables. */
  ghost predicate CopyRunsOut(m: Mem, s: Frame, n: nat, a: nat) {
    exists k | 0 <= k <= n :: Walkable(m, s, k) && a < CopyNeed(m, s, k)
  }

  lemma CopyShort(m: Mem, a: nat, n: Mem, b: nat, s: Frame, d: Frame, p: nat, q: nat)
    requires p < q <= USERPAGES && CopyCharged(m, a, n, b, s, d, p) && Lookup(m, s, p).Some?
    requires NoRoom(n, b, d, p) && Walkable(m, s, p + 1)
    ensures CopyRunsOut(m, s, q, a)
  {
    assert a < CopyNeed(m, s, p + 1) by { CopyNeedNext(m, s, n[d], p); }
    ShortOf(m, a, s, p + 1, q);
  }

  lemma ShortOf(m: Mem, a: nat, s: Frame, k: nat, q: nat)
    requires k <= q && Walkable(m, s, k) && a < CopyNeed(m, s, k)
    ensures CopyRunsOut(m, s, q, a)
  {
  }

  lemma WalkableNext(m: Mem, s: Frame, p: nat)
    requires Walkable(m, s, p) && HasTable(m, s, p)
    ensures Walkable(m, s, p + 1)
  {
  }

  lemma CopySuffices(m: Mem, a: nat, s: Frame, p: nat, q: nat)
    requires p <= q && CopyNeed(m, s, p) <= a && (p == q || !HasTable(m, s, p))
    ensures !CopyRunsOut(m, s, q, a)
  {
    forall k | 0 <= k <= q && Walkable(m, s, k) ensures CopyNeed(m, s, k) <= a {
      assert k <= p;
      CopyNeedGrows(m, s, k, p);
    }
  }

  /** Page x of space d is a copy of page x of space s before: absent if it was, else with the same
      flags and the same words in a frame that was free. */
  ghost predicate CopiedPage(m: Mem, u: Uses, n: Mem, s: Frame, d: Frame, x: nat) {
    match Lookup(m, s, x)
    case None => Lookup(n, d, x) == None
    case Some(w) =>
      match Lookup(n, d, x) {
        case None => false
        case Some(v) => Flags(v) == Flags(w) && SamePages(m, u, n, FrameOf(w), FrameOf(v))
      }
  }

  ghost predicate SamePages(m: Mem, u: Uses, n: Mem, f: Frame, g: Frame) {
    f in m && g in n && g in u && u[g].Free? && n[g] == m[f]
  }

  /** Below page p space d is a copy of s; from there on it has the kernel's pages alone. */
  ghost predicate CopiedBelow(m: Mem, u: Uses, n: Mem, s: Frame, d: Frame, data: Frame, p: nat)
    requires EXTMEM / PGSIZE < data < PHYSTOP / PGSIZE
  {
    && (forall x | 0 <= x < p :: CopiedPage(m, u, n, s, d, x))
    && (forall x | p <= x < NPAGES :: Lookup(n, d, x) == KernelEntry(data, 4, x))
  }

  lemma CopiedKernelAt(m: Mem, u: Uses, n: Mem, s: Frame, d: Frame, data: Frame, p: nat)
    requires EXTMEM / PGSIZE < data < PHYSTOP / PGSIZE && CopiedBelow(m, u, n, s, d, data, p)
    ensures forall x | p <= x < NPAGES :: KernelAt(n, d, data, x)
  {
    forall x | p <= x < NPAGES ensures KernelAt(n, d, data, x) {
      RowsMean(n, d, data, x);
    }
  }

  /** The frame a user page reads as belongs to that page. */
  lemma LookupUser(m: Mem, u: Uses, d: Frame, x: nat)
    requires Tied(m, u) && IsDir(u, d) && x < USERPAGES && Lookup(m, d, x).Some?
    ensures var f := FrameOf(Lookup(m, d, x).value); f in u && u[f] == User(d, x / ENTRIES, x % ENTRIES)
  {
    var t := FrameOf(m[d][x / ENTRIES]);
    assert u[t].slot < USERSLOTS;
  }

  /** A page written in the table of d leaves the copies made before. */
  lemma CopiesStay(m: Mem, u: Uses, n: Mem, w: Uses, q: Mem, s: Frame, d: Frame, data: Frame, p: nat)
    requires EXTMEM / PGSIZE < data < PHYSTOP / PGSIZE && p < USERPAGES
    requires Tied(n, w) && IsDir(w, d) && CopiedBelow(m, u, n, s, d, data, p) && Kept(n, w, q, d)
    requires forall x | 0 <= x < NPAGES && x != p :: Lookup(q, d, x) == Lookup(n, d, x)
    requires CopiedPage(m, u, q, s, d, p)
    ensures CopiedBelow(m, u, q, s, d, data, p + 1)
  {
    forall x | 0 <= x < p ensures CopiedPage(m, u, q, s, d, x) {
      assert CopiedPage(m, u, n, s, d, x);
      if Lookup(n, d, x).Some? {
        LookupUser(n, w, d, x);
      }
    }
  }

  lemma CopyMade(m: Mem, u: Uses, n: Mem, w: Uses, q: Mem, y: Uses, s: Frame, d: Frame, data: Frame, p: nat, f: Frame, pte: nat)
    requires EXTMEM / PGSIZE < data < PHYSTOP / PGSIZE && p < USERPAGES
    requires Tied(m, u) && IsDir(u, s) && Tied(n, w) && NewSpace(u, w, d, {}) && Intact(m, u, n)
    requires CopiedBelow(m, u, n, s, d, data, p) && Lookup(m, s, p) == Some(pte) && Present(pte) && FrameOf(pte) in n
    requires f in w && w[f].Free?
    requires MappedTo(n[f := n[FrameOf(pte)]], w[f := Held], q, y, d, p, 1, f, Flags(pte))
    ensures CopiedBelow(m, u, q, s, d, data, p + 1)
  {
    var g := FrameOf(pte);
    assert OnePage(n, w, q, d, p) by { MappedOne(n, w, f, n[g], q, y, d, p, Flags(pte)); }
    assert n[g] == m[g] by { LookupUser(m, u, s, p); }
    assert CopiedPage(m, u, q, s, d, p) by { CopiedOne(m, u, n[f := n[g]], w, q, y, s, d, p, f, pte); }
    CopiesStay(m, u, n, w, q, s, d, data, p);
  }

  lemma CopiedOne(m: Mem, u: Uses, c: Mem, w: Uses, q: Mem, y: Uses, s: Frame, d: Frame, p: nat, f: Frame, pte: nat)
    requires c.Keys == w.Keys && IsDir(w, d) && p < USERPAGES && f in w && w[f].Free? && f in u && u[f].Free?
    requires Lookup(m, s, p) == Some(pte) && Present(pte) && FrameOf(pte) in m && c[f] == m[FrameOf(pte)]
    requires MappedTo(c, w[f := Held], q, y, d, p, 1, f, Flags(pte))
    ensures CopiedPage(m, u, q, s, d, p)
  {
    var e := Entry(f, Flags(pte));
    assert FrameOf(e) == f && Flags(e) == Flags(pte) by {
      EntryFields(f, Flags(pte));
      FlagsPresent(pte);
    }
    assert Lookup(q, d, p) == Some(e) by { assert IsDir(w[f := Held], d); }
    assert q[f] == c[f];
  }

  lemma NothingToCopy(m: Mem, u: Uses, n: Mem, w: Uses, s: Frame, d: Frame, data: Frame, p: nat)
    requires EXTMEM / PGSIZE < data < PHYSTOP / PGSIZE && p < USERPAGES && m.Keys == u.Keys
    requires Tied(n, w) && IsDir(w, d) && CopiedBelow(m, u, n, s, d, data, p) && Lookup(m, s, p) == None
    ensures CopiedBelow(m, u, n, s, d, data, p + 1)
  {
    assert KernelEntry(data, 4, p) == None;
    CopiesStay(m, u, n, w, n, s, d, data, p);
  }

  lemma StillVacant(m: Mem, u: Uses, n: Mem, w: Uses, s: Frame, d: Frame, data: Frame, p: nat, f: Frame, c: Page)
    requires EXTMEM / PGSIZE < data < PHYSTOP / PGSIZE && p < USERPAGES
    requires Tied(n, w) && IsDir(w, d) && CopiedBelow(m, u, n, s, d, data, p) && f in w && Unlinked(w[f])
    ensures Vacant(n[f := c], d, p, 1)
  {
    PageWritten(n, w, f, c);
    assert KernelEntry(data, 4, p) == None;
  }
}
