/** Address spaces: steps on page tables and uses, and what they do to the flat maps. */
module AddressSpaces {
  import opened Common
  import opened PageTables

  const SPAN: nat := 0x1_0000_0000

  function Pdx(va: nat): (i: nat) { va / (PGSIZE * ENTRIES) }

  function Ptx(va: nat): (j: nat) { va / PGSIZE % ENTRIES }

  predicate IsDir(u: Uses, d: Frame) { d in u && u[d].Dir? }

  /** Every address space reads the same. */
  ghost predicate SameSpaces(m: Mem, u: Uses, n: Mem) {
    forall e, i, j | IsDir(u, e) && 0 <= i < ENTRIES && 0 <= j < ENTRIES :: Leaf(n, e, i, j) == Leaf(m, e, i, j)
  }

  ghost predicate Exhausted(u: Uses) { forall g | g in u :: !u[g].Free? }

  predicate PagingOf(x: Use, g: Frame, d: Frame) { g == d || (x.Table? && x.dir == d) }

  /** Pages in use keep their words, but for the paging structures of d. */
  ghost predicate Kept(m: Mem, u: Uses, n: Mem, d: Frame)
    requires m.Keys == u.Keys
  {
    n.Keys == m.Keys && forall g | g in u && !u[g].Free? && !PagingOf(u[g], g, d) :: n[g] == m[g]
  }

  /** A free frame may have become the table of slot i of d; no other use has changed. */
  ghost predicate Grew(u: Uses, w: Uses, d: Frame, i: nat) {
    w.Keys == u.Keys && forall g | g in u :: w[g] == u[g] || (u[g].Free? && w[g] == Table(d, i))
  }

  /** One entry of space d reads as r, and nothing else has changed. */
  ghost predicate Remapped(m: Mem, u: Uses, n: Mem, d: Frame, i: nat, j: nat, r: Option<nat>) {
    forall e, k, l | IsDir(u, e) && 0 <= k < ENTRIES && 0 <= l < ENTRIES ::
      Leaf(n, e, k, l) == if e == d && k == i && l == j then r else Leaf(m, e, k, l)
  }

  datatype Mapped = Done | NoMemory | Remap

  /** What writing this entry makes of frame f. */
  function Given(u: Uses, d: Frame, i: nat, j: nat, f: Frame): (w: Uses) {
    if i < USERSLOTS then u[f := User(d, i, j)] else u
  }

  function Cleared(): (p: Page)
    ensures forall j | 0 <= j < ENTRIES :: p[j] == 0
  {
    seq(ENTRIES, _ => 0)
  }

  /** memset(v, 1, PGSIZE), then the link in the first word. */
  function Junk(next: nat): (p: Page)
    ensures p[0] == next
  {
    seq(ENTRIES, i => if i == 0 then next else 0x0101_0101)
  }

  /** A cleared page t as the table of slot i. */
  function WithTable(m: Mem, d: Frame, i: nat, t: Frame): (n: Mem)
    requires d in m && t in m && d != t && i < ENTRIES
  {
    var c := m[t := Cleared()];
    c[d := c[d][i := Entry(t, PTE_W + PTE_U)]]
  }

  lemma WithTableTied(m: Mem, u: Uses, d: Frame, i: nat, t: Frame)
    requires Tied(m, u) && IsDir(u, d) && i < ENTRIES && !Present(m[d][i]) && t in u && Unlinked(u[t])
    ensures Tied(WithTable(m, d, i, t), u[t := Table(d, i)])
  {
    ContentsTied(m, u, t, Cleared());
    EntryFields(t, PTE_W + PTE_U);
    TableTied(m[t := Cleared()], u, d, i, t, Entry(t, PTE_W + PTE_U));
  }

  lemma WithTableSpaces(m: Mem, u: Uses, d: Frame, i: nat, t: Frame)
    requires Tied(m, u) && IsDir(u, d) && i < ENTRIES && !Present(m[d][i]) && t in u && u[t].Free?
    ensures SameSpaces(m, u, WithTable(m, d, i, t))
    ensures Kept(m, u, WithTable(m, d, i, t), d)
  {
    ContentsTied(m, u, t, Cleared());
    forall e, k, l | IsDir(u, e) && 0 <= k < ENTRIES && 0 <= l < ENTRIES
      ensures Leaf(WithTable(m, d, i, t), e, k, l) == Leaf(m, e, k, l)
    {
      ContentsLeaf(m, u, t, Cleared(), e, k, l);
      TableLeaf(m[t := Cleared()], u, d, i, t, Entry(t, PTE_W + PTE_U), e, k, l);
    }
  }

  lemma PutTied(m: Mem, u: Uses, t: Frame, j: nat, f: Frame, w: nat)
    requires Tied(m, u) && t in u && u[t].Table? && j < ENTRIES && !Present(m[t][j]) && Present(w) && FrameOf(w) == f
    requires u[t].slot < USERSLOTS ==> f in u && u[f].Held?
    ensures Tied(m[t := m[t][j := w]], Given(u, u[t].dir, u[t].slot, j, f))
    ensures Given(u, u[t].dir, u[t].slot, j, f).Keys == u.Keys
  {
    if u[t].slot < USERSLOTS {
      UserTied(m, u, t, j, f, w);
    } else {
      KernelTied(m, u, t, j, w);
    }
  }

  lemma PutRemaps(m: Mem, u: Uses, t: Frame, j: nat, w: nat)
    requires Tied(m, u) && t in u && u[t].Table? && j < ENTRIES
    ensures Remapped(m, u, m[t := m[t][j := w]], u[t].dir, u[t].slot, j, if Present(w) then Some(w) else None)
  {
    var r := if Present(w) then Some(w) else None;
    forall e, k, l | IsDir(u, e) && 0 <= k < ENTRIES && 0 <= l < ENTRIES
      ensures Leaf(m[t := m[t][j := w]], e, k, l)
              == if e == u[t].dir && k == u[t].slot && l == j then r else Leaf(m, e, k, l)
    {
      EntryLeaf(m, u, t, j, w, e, k, l);
    }
  }

  lemma TableEntry(m: Mem, u: Uses, t: Frame, j: nat)
    requires Tied(m, u) && t in u && u[t].Table? && j < ENTRIES
    ensures u[t].slot < ENTRIES && Leaf(m, u[t].dir, u[t].slot, j) == if Present(m[t][j]) then Some(m[t][j]) else None
  {
  }

  /** A walk that may add a table, then one entry written in a table of d. */
  lemma WalkThenPut(m: Mem, u: Uses, n: Mem, w: Uses, t: Frame, j: nat, p: Page, f: Frame, r: Option<nat>)
    requires m.Keys == u.Keys && t in w && w[t].Table?
    requires var d, i := w[t].dir, w[t].slot;
             && IsDir(u, d) && SameSpaces(m, u, n) && Kept(m, u, n, d) && Grew(u, w, d, i)
             && Remapped(n, w, n[t := p], d, i, j, r) && (i < USERSLOTS ==> f in u && u[f].Held?)
    ensures var d, i := w[t].dir, w[t].slot;
            && Remapped(m, u, n[t := p], d, i, j, r) && Kept(m, u, n[t := p], d)
            && Grew(Given(u, d, i, j, f), Given(w, d, i, j, f), d, i)
  {
    assert forall e | IsDir(u, e) :: IsDir(w, e);
  }

  // ---- what page tables cost ----

  /** The slots of a directory that have a table. */
  ghost function Slots(p: Page): (s: set<nat>) { set i: nat | i < ENTRIES && Present(p[i]) }

  /** Slot i is that of one of the k pages from page v on. */
  predicate SlotOf(v: nat, k: nat, i: nat) { k > 0 && i * ENTRIES < v + k && v < (i + 1) * ENTRIES }

  /** Frames that mapping page v takes for its table. */
  ghost function TableCost(p: Page, v: nat): (n: nat) { if v / ENTRIES in Slots(p) then 0 else 1 }

  /** Frames that mapping the k pages from page v on takes for tables: one for each slot of theirs that
      has none in p. */
  ghost function RangeCost(p: Page, v: nat, k: nat): (n: nat) {
    if k == 0 then 0
    else
      RangeCost(p, v, k - 1) + if SlotOf(v, k - 1, (v + k - 1) / ENTRIES) then 0 else TableCost(p, v + k - 1)
  }

  /** Exactly the slots of those pages have got tables, from directory p to q. */
  ghost predicate Filled(p: Page, q: Page, v: nat, k: nat) {
    forall i: nat {:trigger SlotOf(v, k, i)} | i < ENTRIES :: Present(q[i]) <==> Present(p[i]) || SlotOf(v, k, i)
  }

  /** With a frames free before and b after, one frame was taken for each table added to d. */
  ghost predicate Charged(m: Mem, a: nat, n: Mem, b: nat, d: Frame) {
    d in m && d in n && a + |Slots(m[d])| == b + |Slots(n[d])|
  }

  /** With b frames free, page v of space d cannot get a table. */
  ghost predicate Short(m: Mem, b: nat, d: Frame, v: nat) { d in m && b < TableCost(m[d], v) }

  lemma VacantNext(m: Mem, u: Uses, n: Mem, d: Frame, v: nat, k: nat, f: Frame, perm: nat, p: nat)
    requires perm < PGSIZE && MapsRange(m, u, n, d, v, k, f, perm) && IsDir(u, d) && p == v + k < NPAGES
    requires Vacant(m, d, v, k) && Lookup(n, d, p).None?
    ensures Vacant(m, d, v, k + 1)
  {
    assert Lookup(n, d, p) == Lookup(m, d, p);
  }

  lemma ChargedNext(m: Mem, a: nat, n: Mem, b: nat, q: Mem, c: nat, d: Frame, p: nat)
    requires Charged(m, a, n, b, d) && d in q && Slots(q[d]) == Slots(n[d]) + {p / ENTRIES}
    requires c + TableCost(n[d], p) == b
    ensures Charged(m, a, q, c, d)
  {
    assert p / ENTRIES in Slots(n[d]) ==> Slots(q[d]) == Slots(n[d]);
  }

  lemma SlotFilled(p: Page, i: nat, w: nat)
    requires i < ENTRIES && Present(w)
    ensures Slots(p[i := w]) == Slots(p) + {i}
  {
  }

  lemma EntryPresent(f: Frame, perm: nat)
    requires perm < PGSIZE
    ensures Present(Entry(f, perm))
  {
    EntryFields(f, perm);
  }

  // ---- ranges of pages ----

  /** Pages [v, v + k) of space d read as frames from f on, and nothing else has changed. */
  ghost predicate MapsRange(m: Mem, u: Uses, n: Mem, d: Frame, v: nat, k: nat, f: Frame, perm: nat)
    requires perm < PGSIZE
  {
    forall e, x | IsDir(u, e) && 0 <= x < NPAGES ::
      Lookup(n, e, x) == if e == d && v <= x < v + k then Some(Entry(f + x - v, perm)) else Lookup(m, e, x)
  }

  predicate IsUserAt(x: Use, d: Frame, p: nat) {
    x.User? && x.dir == d && x.index < ENTRIES && x.slot * ENTRIES + x.index == p
  }

  ghost function SlotsOf(v: nat, k: nat): (s: set<nat>) { set i: nat | i < ENTRIES && SlotOf(v, k, i) }

  /** The table of one of the pages [v, v + k) of d. */
  predicate TableFor(x: Use, d: Frame, v: nat, k: nat) { x.Table? && x.dir == d && SlotOf(v, k, x.slot) }

  /** Frames [f, f + k) mapped at user pages from v on are theirs now, free frames may have become
      tables of those pages, and no other use has changed. */
  ghost predicate Took(u: Uses, w: Uses, d: Frame, v: nat, k: nat, f: Frame) {
    w.Keys == u.Keys
    && forall g | g in u ::
         if f <= g < f + k && v + g - f < USERPAGES then IsUserAt(w[g], d, v + g - f)
         else w[g] == u[g] || (u[g].Free? && TableFor(w[g], d, v, k))
  }

  /** The frames to be mapped at user pages are in the caller's hands. */
  ghost predicate Handed(u: Uses, v: nat, k: nat, f: Frame) {
    forall g: nat | f <= g < f + k && v + g - f < USERPAGES :: g in u && u[g].Held?
  }

  lemma PageAt(p: nat)
    ensures Pdx(p * PGSIZE) == p / ENTRIES && Ptx(p * PGSIZE) == p % ENTRIES && p * PGSIZE / PGSIZE == p
    ensures p < NPAGES ==> p * PGSIZE < SPAN
  {
  }

  lemma SamePage(x: nat, v: nat)
    ensures x == v <==> x / ENTRIES == v / ENTRIES && x % ENTRIES == v % ENTRIES
  {
  }

  lemma FlatMapped(m: Mem, u: Uses, n: Mem, d: Frame, p: nat, f: Frame, perm: nat)
    requires p < NPAGES && perm < PGSIZE && Remapped(m, u, n, d, p / ENTRIES, p % ENTRIES, Some(Entry(f, perm)))
    ensures MapsRange(m, u, n, d, p, 1, f, perm)
  {
    forall e, x | IsDir(u, e) && 0 <= x < NPAGES
      ensures Lookup(n, e, x) == if e == d && x == p then Some(Entry(f, perm)) else Lookup(m, e, x)
    {
      SamePage(x, p);
      assert Lookup(n, e, x) == Leaf(n, e, x / ENTRIES, x % ENTRIES);
    }
  }

  lemma FlatTook(u: Uses, w: Uses, d: Frame, p: nat, f: Frame)
    requires Grew(Given(u, d, p / ENTRIES, p % ENTRIES, f), w, d, p / ENTRIES) && p < NPAGES
    requires p < USERPAGES ==> f in u && u[f].Held?
    ensures Took(u, w, d, p, 1, f)
  {
    assert p / ENTRIES < USERSLOTS <==> p < USERPAGES;
    var now := Given(u, d, p / ENTRIES, p % ENTRIES, f);
    if p < USERPAGES {
      assert now[f] == User(d, p / ENTRIES, p % ENTRIES) && IsUserAt(now[f], d, p);
    }
  }

  /** A walk that may add a table, then the entry for page p. */
  lemma PageMapped(m: Mem, u: Uses, n: Mem, w: Uses, d: Frame, p: nat, t: Frame, f: Frame, perm: nat)
    requires m.Keys == u.Keys && Tied(n, w) && IsDir(u, d) && p < NPAGES && perm < PGSIZE
    requires t in w && w[t] == Table(d, p / ENTRIES) && SameSpaces(m, u, n) && Kept(m, u, n, d) && Grew(u, w, d, p / ENTRIES)
    requires p < USERPAGES ==> f in u && u[f].Held?
    ensures MappedTo(m, u, n[t := n[t][p % ENTRIES := Entry(f, perm)]], Given(w, d, p / ENTRIES, p % ENTRIES, f), d, p, 1, f, perm)
  {
    var i, j, e := p / ENTRIES, p % ENTRIES, Entry(f, perm);
    EntryPresent(f, perm);
    PutRemaps(n, w, t, j, e);
    WalkThenPut(m, u, n, w, t, j, n[t][j := e], f, Some(e));
    FlatMapped(m, u, n[t := n[t][j := e]], d, p, f, perm);
    FlatTook(u, Given(w, d, i, j, f), d, p, f);
  }

  lemma RangeNext(m: Mem, u: Uses, n: Mem, w: Uses, p: Mem, d: Frame, v: nat, k: nat, f: Frame, perm: nat, y: nat, g: Frame)
    requires perm < PGSIZE && y == v + k && g == f + k
    requires MapsRange(m, u, n, d, v, k, f, perm) && MapsRange(n, w, p, d, y, 1, g, perm)
    requires forall e | IsDir(u, e) :: IsDir(w, e)
    ensures MapsRange(m, u, p, d, v, k + 1, f, perm)
  {
    forall e, x | IsDir(u, e) && 0 <= x < NPAGES
      ensures Lookup(p, e, x) == if e == d && v <= x < v + k + 1 then Some(Entry(f + x - v, perm)) else Lookup(m, e, x)
    {
      assert IsDir(w, e);
    }
  }

  lemma TookNext(u: Uses, w: Uses, x: Uses, d: Frame, v: nat, k: nat, f: Frame, y: nat, g: Frame)
    requires y == v + k && g == f + k && Took(u, w, d, v, k, f) && Took(w, x, d, y, 1, g)
    ensures Took(u, x, d, v, k + 1, f)
  {
  }

  lemma TookKeeps(m: Mem, u: Uses, n: Mem, w: Uses, p: Mem, d: Frame, v: nat, k: nat, f: Frame)
    requires m.Keys == u.Keys && n.Keys == w.Keys && Kept(m, u, n, d) && Kept(n, w, p, d) && IsDir(u, d)
    requires Took(u, w, d, v, k, f)
    ensures Kept(m, u, p, d)
  {
    forall g | g in u && !u[g].Free? && !PagingOf(u[g], g, d) ensures p[g] == m[g] {
      assert !w[g].Free? && !PagingOf(w[g], g, d);
    }
  }

  lemma TookDirs(u: Uses, w: Uses, d: Frame, v: nat, k: nat, f: Frame, n: nat)
    requires Took(u, w, d, v, k, f) && k < n && Handed(u, v, n, f)
    ensures forall e | IsDir(u, e) :: IsDir(w, e)
    ensures Handed(w, v + k, 1, f + k)
  {
    assert forall g: nat | f <= g < f + n && v + g - f < USERPAGES :: g in u && u[g].Held?;
  }

  /** Nothing is mapped at pages [v, v + k) of space d. */
  ghost predicate Vacant(m: Mem, d: Frame, v: nat, k: nat) {
    forall x | v <= x < v + k :: Lookup(m, d, x).None?
  }

  /** All that mapping k pages of space d from page v on, to frames from f on, has done. */
  ghost predicate MappedTo(m: Mem, u: Uses, n: Mem, w: Uses, d: Frame, v: nat, k: nat, f: Frame, perm: nat)
    requires m.Keys == u.Keys && perm < PGSIZE
  {
    MapsRange(m, u, n, d, v, k, f, perm) && Took(u, w, d, v, k, f) && Kept(m, u, n, d)
  }

  lemma MappedNext(m: Mem, u: Uses, n: Mem, w: Uses, q: Mem, x: Uses, d: Frame, v: nat, k: nat, f: Frame, perm: nat, y: nat, g: Frame)
    requires m.Keys == u.Keys && n.Keys == w.Keys && perm < PGSIZE && y == v + k && g == f + k && IsDir(u, d)
    requires forall e | IsDir(u, e) :: IsDir(w, e)
    requires MappedTo(m, u, n, w, d, v, k, f, perm) && MappedTo(n, w, q, x, d, y, 1, g, perm)
    ensures MappedTo(m, u, q, x, d, v, k + 1, f, perm)
  {
    RangeNext(m, u, n, w, q, d, v, k, f, perm, y, g);
    TookNext(u, w, x, d, v, k, f, y, g);
    TookKeeps(m, u, n, w, q, d, v, k, f);
  }

  /** Mapping pages adds tables for exactly their slots. */
  lemma MappedSlots(m: Mem, u: Uses, n: Mem, w: Uses, d: Frame, v: nat, k: nat, f: Frame, perm: nat)
    requires Tied(m, u) && Tied(n, w) && IsDir(u, d) && IsDir(w, d) && perm < PGSIZE && v + k <= NPAGES
    requires MappedTo(m, u, n, w, d, v, k, f, perm) && Handed(u, v, k, f)
    ensures Slots(n[d]) == Slots(m[d]) + SlotsOf(v, k)
  {
    forall i: nat | i < ENTRIES
      ensures Present(n[d][i]) <==> Present(m[d][i]) || SlotOf(v, k, i)
    {
      if Present(n[d][i]) {
        var t := FrameOf(n[d][i]);
        assert w[t] == Table(d, i) && w[t].slot == i;
        if u[t] == w[t] { assert u[t].slot == i; }
      }
      if Present(m[d][i]) { TableStays(m, u, n, w, d, v, k, f, i); }
      if SlotOf(v, k, i) { SlotMapped(m, u, n, d, v, k, f, perm, i); }
    }
  }

  lemma TableStays(m: Mem, u: Uses, n: Mem, w: Uses, d: Frame, v: nat, k: nat, f: Frame, i: nat)
    requires Tied(m, u) && Tied(n, w) && IsDir(u, d) && Took(u, w, d, v, k, f) && Handed(u, v, k, f)
    requires i < ENTRIES && Present(m[d][i])
    ensures d in n && Present(n[d][i])
  {
    var t := FrameOf(m[d][i]);
    assert u[t] == Table(d, i);
    assert w[t] == u[t];
    assert w[t].slot == i;
  }

  lemma SlotMapped(m: Mem, u: Uses, n: Mem, d: Frame, v: nat, k: nat, f: Frame, perm: nat, i: nat)
    requires IsDir(u, d) && perm < PGSIZE && v + k <= NPAGES && MapsRange(m, u, n, d, v, k, f, perm) && SlotOf(v, k, i)
    ensures i < ENTRIES && d in n && Present(n[d][i])
  {
    var x := if v < i * ENTRIES then i * ENTRIES else v;
    assert x / ENTRIES == i && v <= x < v + k;
    assert Lookup(n, d, x).Some?;
  }

  /** Page p of d was mapped, with a frames free before and b after: x frames for it, and one for its
      table if it had none. */
  ghost predicate Paid(m: Mem, a: nat, n: Mem, b: nat, d: Frame, p: nat, x: nat) {
    d in m && d in n && a == b + x + TableCost(m[d], p) && Slots(n[d]) == Slots(m[d]) + {p / ENTRIES}
  }

  lemma PaidOne(m: Mem, a: nat, u: Uses, n: Mem, b: nat, w: Uses, d: Frame, p: nat, f: Frame, perm: nat)
    requires Tied(m, u) && Tied(n, w) && IsDir(u, d) && IsDir(w, d) && perm < PGSIZE && p < NPAGES
    requires MappedTo(m, u, n, w, d, p, 1, f, perm) && Handed(u, p, 1, f) && Charged(m, a, n, b, d)
    ensures Paid(m, a, n, b, d, p, 0)
  {
    assert Slots(n[d]) == Slots(m[d]) + SlotsOf(p, 1) by { MappedSlots(m, u, n, w, d, p, 1, f, perm); }
    OneCharge(m, a, n, b, d, p);
  }

  lemma OneCharge(m: Mem, a: nat, n: Mem, b: nat, d: Frame, p: nat)
    requires p < NPAGES && Charged(m, a, n, b, d) && Slots(n[d]) == Slots(m[d]) + SlotsOf(p, 1)
    ensures Paid(m, a, n, b, d, p, 0)
  {
    assert SlotsOf(p, 1) == {p / ENTRIES};
    assert p / ENTRIES in Slots(m[d]) ==> Slots(n[d]) == Slots(m[d]);
  }

  /** The same after a frame was taken and filled for the page. */
  lemma PaidTaken(n: Mem, f: Frame, c: Page, b: nat, a: nat, q: Mem, e: nat, d: Frame, p: nat)
    requires f != d && Paid(n[f := c], b, q, e, d, p, 0) && a == b + 1
    ensures Paid(n, a, q, e, d, p, 1)
  {
  }

  lemma MappedHasTable(m: Mem, b: nat, d: Frame, p: nat)
    requires p < NPAGES && !Vacant(m, d, p, 1)
    ensures !Short(m, b, d, p)
  {
    assert Lookup(m, d, p).Some?;
  }

  /** With b frames free, there are too few for page p of d and its table. */
  ghost predicate NoRoom(m: Mem, b: nat, d: Frame, p: nat) { d in m && b < 1 + TableCost(m[d], p) }

  lemma ShortTaken(n: Mem, f: Frame, c: Page, b: nat, a: nat, d: Frame, p: nat)
    requires d in n && f != d && a == b + 1
    ensures Short(n[f := c], b, d, p) <==> NoRoom(n, a, d, p)
  {
  }

  lemma NoneLeft(m: Mem, b: nat, d: Frame, p: nat)
    requires d in m && b == 0
    ensures NoRoom(m, b, d, p)
  {
  }

  // ---- unmapping ----

  function PagesFor(sz: nat): (n: nat) { (sz + PGSIZE - 1) / PGSIZE }

  /** They are the pages with a byte below sz. */
  lemma PagesForExact(sz: nat, x: nat)
    ensures x < PagesFor(sz) <==> x * PGSIZE < sz
  {
  }

  function Min(a: nat, b: nat): (c: nat) { if a < b then a else b }

  /** Pages [lo, hi) of space d are gone, and nothing else has changed. */
  ghost predicate Unmapped(m: Mem, u: Uses, n: Mem, d: Frame, lo: nat, hi: nat) {
    forall e, x | IsDir(u, e) && 0 <= x < NPAGES ::
      Lookup(n, e, x) == if e == d && lo <= x < hi then None else Lookup(m, e, x)
  }

  predicate UserIn(x: Use, d: Frame, lo: nat, hi: nat) {
    x.User? && x.dir == d && lo <= x.slot * ENTRIES + x.index < hi
  }

  /** The frames of those pages are free, and no other use has changed. */
  ghost predicate Dropped(u: Uses, w: Uses, d: Frame, lo: nat, hi: nat) {
    w.Keys == u.Keys && forall g | g in u :: w[g] == if UserIn(u[g], d, lo, hi) then Free else u[g]
  }

  /** A user frame freed and overwritten, and its entry cleared. */
  function WithoutPage(m: Mem, t: Frame, j: nat, f: Frame, p: Page): (n: Mem)
    requires t in m && f in m && t != f && j < ENTRIES
  {
    m[f := p][t := m[t][j := 0]]
  }

  lemma WithoutPageTied(m: Mem, u: Uses, t: Frame, j: nat, f: Frame, p: Page)
    requires Tied(m, u) && t in u && u[t].Table? && u[t].slot < USERSLOTS && j < ENTRIES && Present(m[t][j])
    requires f == FrameOf(m[t][j])
    ensures f in u && u[f] == User(u[t].dir, u[t].slot, j)
    ensures Tied(WithoutPage(m, t, j, f, p), u[f := Free])
  {
    UnmapTied(m, u, t, j, Free);
    var n := m[t := m[t][j := 0]];
    ContentsTied(n, u[f := Free], f, p);
    assert n[f := p] == WithoutPage(m, t, j, f, p);
  }

  lemma WithoutPageRemaps(m: Mem, u: Uses, t: Frame, j: nat, f: Frame, p: Page)
    requires Tied(m, u) && t in u && u[t].Table? && u[t].slot < USERSLOTS && j < ENTRIES && Present(m[t][j])
    requires f == FrameOf(m[t][j]) && f in u && u[f].User?
    ensures Remapped(m, u, WithoutPage(m, t, j, f, p), u[t].dir, u[t].slot, j, None)
  {
    UnmapTied(m, u, t, j, Free);
    var n := m[t := m[t][j := 0]];
    PutRemaps(m, u, t, j, 0);
    assert n[f := p] == WithoutPage(m, t, j, f, p);
    forall e, k, l | IsDir(u, e) && 0 <= k < ENTRIES && 0 <= l < ENTRIES
      ensures Leaf(WithoutPage(m, t, j, f, p), e, k, l) == Leaf(n, e, k, l)
    {
      ContentsLeaf(n, u[f := Free], f, p, e, k, l);
    }
  }

  lemma FlatUnmapped(m: Mem, u: Uses, n: Mem, d: Frame, p: nat)
    requires p < NPAGES && Remapped(m, u, n, d, p / ENTRIES, p % ENTRIES, None)
    ensures Unmapped(m, u, n, d, p, p + 1)
  {
    forall e, x | IsDir(u, e) && 0 <= x < NPAGES
      ensures Lookup(n, e, x) == if e == d && x == p then None else Lookup(m, e, x)
    {
      SamePage(x, p);
      assert Lookup(n, e, x) == Leaf(n, e, x / ENTRIES, x % ENTRIES);
    }
  }

  /** A user frame is what its page reads as. */
  lemma UserMapped(m: Mem, u: Uses, g: Frame)
    requires Tied(m, u) && g in u && u[g].User?
    ensures u[g].slot < USERSLOTS && u[g].index < ENTRIES
    ensures var r := Lookup(m, u[g].dir, u[g].slot * ENTRIES + u[g].index); r.Some? && FrameOf(r.value) == g
  {
    var x := u[g].slot * ENTRIES + u[g].index;
    assert x / ENTRIES == u[g].slot && x % ENTRIES == u[g].index;
  }

  /** No user frame of d lies where nothing is mapped. */
  lemma NoUserWhereUnmapped(m: Mem, u: Uses, d: Frame, lo: nat, hi: nat)
    requires Tied(m, u) && IsDir(u, d) && hi <= NPAGES && forall x | lo <= x < hi :: Lookup(m, d, x) == None
    ensures Dropped(u, u, d, lo, hi) && Unmapped(m, u, m, d, lo, hi)
  {
    forall g | g in u ensures !UserIn(u[g], d, lo, hi) {
      if u[g].User? { UserMapped(m, u, g); }
    }
  }

  lemma OneDropped(u: Uses, d: Frame, i: nat, j: nat, f: Frame, m: Mem)
    requires Tied(m, u) && f in u && u[f] == User(d, i, j)
    ensures Dropped(u, u[f := Free], d, i * ENTRIES + j, i * ENTRIES + j + 1)
  {
    forall g | g in u && g != f ensures !UserIn(u[g], d, i * ENTRIES + j, i * ENTRIES + j + 1) {
      UserMapped(m, u, f);
      if u[g].User? { UserMapped(m, u, g); }
    }
  }

  lemma UnmappedNext(m: Mem, u: Uses, n: Mem, w: Uses, q: Mem, d: Frame, lo: nat, p: nat, hi: nat)
    requires lo <= p <= hi && Unmapped(m, u, n, d, lo, p) && Unmapped(n, w, q, d, p, hi) && Dropped(u, w, d, lo, p)
    ensures Unmapped(m, u, q, d, lo, hi)
  {
    forall e, x | IsDir(u, e) && 0 <= x < NPAGES
      ensures Lookup(q, e, x) == if e == d && lo <= x < hi then None else Lookup(m, e, x)
    {
      assert IsDir(w, e);
    }
  }

  lemma DroppedNext(u: Uses, w: Uses, x: Uses, d: Frame, lo: nat, p: nat, hi: nat)
    requires lo <= p <= hi && Dropped(u, w, d, lo, p) && Dropped(w, x, d, p, hi)
    ensures Dropped(u, x, d, lo, hi)
  {
  }

  lemma DroppedKeeps(m: Mem, n: Mem, w: Uses, q: Mem, x: Uses, d: Frame, p: nat, hi: nat)
    requires m.Keys == w.Keys && n.Keys == x.Keys && Kept(m, w, n, d) && Kept(n, x, q, d) && Dropped(w, x, d, p, hi)
    ensures m.Keys == x.Keys && Kept(m, x, q, d)
  {
    forall g | g in x && !x[g].Free? && !PagingOf(x[g], g, d) ensures q[g] == m[g] {
      assert w[g] == x[g];
    }
  }

  /** All that unmapping pages [lo, hi) of space d has done. */
  ghost predicate Emptied(m: Mem, u: Uses, n: Mem, w: Uses, d: Frame, lo: nat, hi: nat)
    requires m.Keys == u.Keys
  {
    Unmapped(m, u, n, d, lo, hi) && Dropped(u, w, d, lo, hi) && Kept(m, w, n, d)
  }

  lemma EmptiedNext(m: Mem, u: Uses, n: Mem, w: Uses, q: Mem, x: Uses, d: Frame, lo: nat, p: nat, hi: nat)
    requires m.Keys == u.Keys && n.Keys == w.Keys && lo <= p <= hi
    requires Emptied(m, u, n, w, d, lo, p) && Emptied(n, w, q, x, d, p, hi)
    ensures Emptied(m, u, q, x, d, lo, hi)
  {
    UnmappedNext(m, u, n, w, q, d, lo, p, hi);
    DroppedNext(u, w, x, d, lo, p, hi);
    DroppedKeeps(m, n, w, q, x, d, p, hi);
  }

  lemma PageDropped(m: Mem, u: Uses, t: Frame, j: nat, f: Frame, q: Page, d: Frame, p: nat)
    requires Tied(m, u) && p < USERPAGES && t in u && u[t] == Table(d, p / ENTRIES) && j == p % ENTRIES && Present(m[t][j])
    requires f == FrameOf(m[t][j]) && f in u && u[f] == User(d, p / ENTRIES, j)
    ensures Emptied(m, u, WithoutPage(m, t, j, f, q), u[f := Free], d, p, p + 1)
  {
    WithoutPageRemaps(m, u, t, j, f, q);
    FlatUnmapped(m, u, WithoutPage(m, t, j, f, q), d, p);
    OneDropped(u, d, p / ENTRIES, j, f, m);
  }

  lemma SlotAbsent(m: Mem, d: Frame, p: nat, hi: nat)
    requires d in m && p < NPAGES && !Present(m[d][p / ENTRIES]) && hi <= (p / ENTRIES + 1) * ENTRIES
    ensures forall x | p <= x < hi :: Lookup(m, d, x) == None
  {
    forall x | p <= x < hi ensures Lookup(m, d, x) == None {
      assert x / ENTRIES == p / ENTRIES;
    }
  }

  // ---- giving a whole space back ----

  predicate BelongsTo(x: Use, g: Frame, d: Frame) {
    g == d || (x.Table? && x.dir == d) || (x.User? && x.dir == d)
  }

  /** Every frame of space d is free, and no other use has changed. */
  ghost predicate Released(u: Uses, w: Uses, d: Frame) {
    w.Keys == u.Keys && forall g | g in u :: w[g] == if BelongsTo(u[g], g, d) then Free else u[g]
  }

  /** A directory without user pages stops being one: it and its tables are only held. */
  ghost function Demoted(u: Uses, d: Frame): (w: Uses)
    ensures w.Keys == u.Keys && forall g | g in u :: w[g] == if BelongsTo(u[g], g, d) then Held else u[g]
  {
    map g | g in u :: if BelongsTo(u[g], g, d) then Held else u[g]
  }

  lemma DemotedTied(m: Mem, u: Uses, d: Frame)
    requires Tied(m, u) && IsDir(u, d) && forall g | g in u && u[g].User? :: u[g].dir != d
    ensures Tied(m, Demoted(u, d))
  {
    var w := Demoted(u, d);
    assert forall g | g in w && (w[g].Dir? || w[g].Table? || w[g].User?) :: w[g] == u[g];
    forall t | t in w && w[t].Table?
      ensures w[t].slot < ENTRIES && w[t].dir in w && w[w[t].dir].Dir?
              && Present(m[w[t].dir][w[t].slot]) && FrameOf(m[w[t].dir][w[t].slot]) == t
    {
      assert u[t].slot < ENTRIES;
    }
    forall f | f in w && w[f].User?
      ensures w[f].slot < USERSLOTS && w[f].index < ENTRIES && MapsTo(m, w, w[f].dir, w[f].slot, w[f].index, f)
    {
      assert u[f].index < ENTRIES;
    }
    assert DirsOk(m, w);
    assert EntriesOk(m, w) by {
      forall t, j | t in w && w[t].Table? && w[t].slot < USERSLOTS && 0 <= j < ENTRIES && Present(m[t][j])
        ensures FrameOf(m[t][j]) in w && w[FrameOf(m[t][j])] == User(w[t].dir, w[t].slot, j)
      {
        assert u[t].slot < USERSLOTS;
      }
    }
  }

  /** After the tables in slots below i have been freed. */
  ghost predicate FreedBelow(u: Uses, w: Uses, d: Frame, i: nat) {
    w.Keys == u.Keys
    && forall g | g in u ::
         w[g] == if u[g].Table? && u[g].dir == d && u[g].slot < i then Free else Demoted(u, d)[g]
  }

  /** The table in a slot of this directory page is the only frame used as that table. */
  ghost predicate SlotTable(row: Page, u: Uses, d: Frame, i: nat) {
    && i < ENTRIES && (forall g | g in u :: u[g] == Table(d, i) <==> Present(row[i]) && g == FrameOf(row[i]))
    && (Present(row[i]) ==> FrameOf(row[i]) in u && FrameOf(row[i]) != d)
  }

  lemma SlotUse(m: Mem, u: Uses, d: Frame)
    requires Tied(m, u) && IsDir(u, d)
    ensures forall i | 0 <= i < ENTRIES :: SlotTable(m[d], u, d, i)
  {
    forall g | g in u && u[g].Table? ensures FrameOf(m[u[g].dir][u[g].slot]) == g && Present(m[u[g].dir][u[g].slot]) {
      assert u[g].slot < ENTRIES;
    }
  }

  lemma SlotFreed(row: Page, u: Uses, w: Uses, d: Frame, i: nat)
    requires SlotTable(row, u, d, i) && FreedBelow(u, w, d, i)
    ensures !Present(row[i]) ==> FreedBelow(u, w, d, i + 1)
    ensures Present(row[i]) ==>
              var f := FrameOf(row[i]); f in w && f != d && w[f].Held? && FreedBelow(u, w[f := Free], d, i + 1)
  {
  }

  lemma SlotBounds(m: Mem, u: Uses)
    requires Tied(m, u)
    ensures forall g | g in u && u[g].Table? :: u[g].slot < ENTRIES
  {
  }

  lemma UsersBelow(m: Mem, u: Uses, w: Uses, d: Frame)
    requires Tied(m, u) && Dropped(u, w, d, 0, USERPAGES)
    ensures forall g | g in w && w[g].User? :: w[g].dir != d
    ensures forall g | g in u :: w[g] == if u[g].User? && u[g].dir == d then Free else u[g]
  {
    forall g | g in u && u[g].User? ensures u[g].slot * ENTRIES + u[g].index < USERPAGES {
      UserMapped(m, u, g);
    }
  }

  /** Every space but d reads the same. */
  ghost predicate OthersSame(m: Mem, u: Uses, n: Mem, d: Frame) {
    forall e, x | IsDir(u, e) && e != d && 0 <= x < NPAGES :: Lookup(n, e, x) == Lookup(m, e, x)
  }

  lemma ReleasedOthers(m: Mem, u: Uses, n: Mem, w: Uses, d: Frame)
    requires Tied(m, u) && IsDir(u, d) && Released(u, w, d) && Kept(m, w, n, d)
    ensures OthersSame(m, u, n, d)
  {
    forall e, x | IsDir(u, e) && e != d && 0 <= x < NPAGES ensures Lookup(n, e, x) == Lookup(m, e, x) {
      assert w[e] == Dir && n[e] == m[e];
      var i := x / ENTRIES;
      if Present(m[e][i]) {
        var t := FrameOf(m[e][i]);
        assert u[t] == Table(e, i) && w[t] == Table(e, i) && n[t] == m[t];
      }
    }
  }

  /** Dropped, demoted, and its tables and directory freed: the space is released. */
  lemma FreedReleased(u: Uses, v: Uses, w: Uses, d: Frame)
    requires IsDir(u, d) && v.Keys == u.Keys
    requires forall g | g in u :: v[g] == if u[g].User? && u[g].dir == d then Free else u[g]
    requires forall g | g in u && u[g].Table? :: u[g].slot < ENTRIES
    requires FreedBelow(v, w, d, ENTRIES)
    ensures Released(u, w[d := Free], d)
  {
  }

  lemma FreedKeeps(m: Mem, v: Uses, n: Mem, w: Uses, q: Mem, d: Frame, p: Page)
    requires m.Keys == v.Keys == w.Keys == n.Keys == q.Keys && d in v && FreedBelow(v, w, d, ENTRIES)
    requires Kept(m, v, n, d) && Kept(n, w, q, d)
    requires forall g | g in v && g != d && BelongsTo(v[g], g, d) :: v[g].Table? && v[g].slot < ENTRIES
    ensures Kept(m, w[d := Free], q[d := p], d)
  {
    var x, r := w[d := Free], q[d := p];
    forall g | g in x && !x[g].Free? && !PagingOf(x[g], g, d) ensures r[g] == m[g] {
      assert x[g] == w[g] == v[g];
    }
  }
}
