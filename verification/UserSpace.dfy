/** Growing the user part of a space, and taking a failed growth back. */
module UserSpace {
  import opened Common
  import opened PageTables
  import opened FrameList
  import opened AddressSpaces
  import opened KernelMap

  /** A cleared page of the process's own, in a frame that was free. */
  ghost predicate FreshPage(u: Uses, n: Mem, d: Frame, x: nat) {
    match Lookup(n, d, x)
    case None => false
    case Some(w) => Flags(w) == PTE_P + PTE_W + PTE_U && IsCleared(u, n, FrameOf(w))
  }

  ghost predicate IsCleared(u: Uses, n: Mem, f: Frame) {
    f in u && u[f].Free? && f in n && n[f] == Cleared()
  }

  /** The process can read and write every byte of such a page. */
  lemma FreshAccess(u: Uses, n: Mem, w: Uses, d: Frame, va: nat)
    requires Tied(n, w) && IsDir(w, d) && va < 0x1_0000_0000 && FreshPage(u, n, d, va / PGSIZE)
    ensures AccessAt(n, d, va) == Some(Access(FrameOf(Lookup(n, d, va / PGSIZE).value), true, true))
  {
    AccessIsEntry(n, w, d, va);
    FlagBits(Lookup(n, d, va / PGSIZE).value);
  }

  /** It can touch no byte of the kernel. */
  lemma KernelAccess(n: Mem, w: Uses, d: Frame, data: Frame, va: nat)
    requires Tied(n, w) && IsDir(w, d) && KERNBASE <= va < 0x1_0000_0000 && KernelAt(n, d, data, va / PGSIZE)
    ensures AccessAt(n, d, va).Some? ==> !AccessAt(n, d, va).value.user
  {
    var x := va / PGSIZE;
    AccessIsEntry(n, w, d, va);
    match Lookup(n, d, x)
    case None =>
    case Some(e) =>
      EntryFields(FrameOf(e), Flags(e));
      FlagBits(e);
      KernelFlags(n, d, data, x);
  }

  lemma KernelFlags(n: Mem, d: Frame, data: Frame, x: nat)
    requires USERPAGES <= x < NPAGES && KernelAt(n, d, data, x) && Lookup(n, d, x).Some?
    ensures Flags(Lookup(n, d, x).value) == PTE_P || Flags(Lookup(n, d, x).value) == PTE_P + PTE_W
  {
    var f := if DEVSPACE / PGSIZE <= x then x else x - USERPAGES;
    EntryFields(f, 0);
    EntryFields(f, PTE_W);
  }

  /** Free frames may have become tables of d or its user frames at pages [lo, hi); nothing else. */
  ghost predicate GrewUser(u: Uses, w: Uses, d: Frame, lo: nat, hi: nat) {
    w.Keys == u.Keys
    && forall g | g in u ::
         w[g] == u[g] || (u[g].Free? && ((w[g].Table? && w[g].dir == d) || UserIn(w[g], d, lo, hi)))
  }

  /** Pages [lo, hi) of d are fresh and everything else is as it was. */
  ghost predicate Grown(m: Mem, u: Uses, n: Mem, w: Uses, d: Frame, lo: nat, hi: nat)
    requires m.Keys == u.Keys
  {
    && GrewUser(u, w, d, lo, hi) && Kept(m, u, n, d)
    && (forall x | lo <= x < hi :: FreshPage(u, n, d, x))
    && (forall e, x | IsDir(u, e) && 0 <= x < NPAGES && !(e == d && lo <= x < hi) :: Lookup(n, e, x) == Lookup(m, e, x))
  }

  // ---- what a growth costs ----

  /** The frames for pages [lo, p): one each, and one for each slot of theirs that has no table in t. */
  ghost function GrowNeed(t: Page, lo: nat, p: nat): (n: nat)
    requires lo <= p
  {
    p - lo + RangeCost(t, lo, p - lo)
  }

  /** Where a growth of d from page lo on stands at page p, of memory n: vacant pages have got tables,
      and of a frames that were free b are left. */
  ghost predicate GrowCharged(m: Mem, a: nat, n: Mem, b: nat, d: Frame, lo: nat, p: nat) {
    && d in m && d in n && lo <= p && Vacant(m, d, lo, p - lo) && Filled(m[d], n[d], lo, p - lo)
    && a == b + GrowNeed(m[d], lo, p)
  }

  lemma GrowNeedNext(t: Page, x: Page, lo: nat, p: nat)
    requires lo <= p < NPAGES && Filled(t, x, lo, p - lo)
    ensures GrowNeed(t, lo, p + 1) == GrowNeed(t, lo, p) + 1 + TableCost(x, p)
  {
    var i := p / ENTRIES;
    assert SlotOf(lo, p - lo, i) || i in Slots(t) <==> i in Slots(x);
  }

  lemma GrowChargedNothing(m: Mem, a: nat, d: Frame, lo: nat)
    requires d in m
    ensures GrowCharged(m, a, m, a, d, lo, lo)
  {
  }

  lemma FilledNext(t: Page, x: Page, y: Page, lo: nat, p: nat)
    requires lo <= p < NPAGES && Filled(t, x, lo, p - lo) && Slots(y) == Slots(x) + {p / ENTRIES}
    ensures Filled(t, y, lo, p + 1 - lo)
  {
    forall i: nat | i < ENTRIES ensures Present(y[i]) <==> Present(t[i]) || SlotOf(lo, p + 1 - lo, i) {
      assert SlotOf(lo, p + 1 - lo, i) <==> SlotOf(lo, p - lo, i) || i == p / ENTRIES;
      assert i in Slots(y) <==> i in Slots(x) || i == p / ENTRIES;
    }
  }

  lemma {:induction false} GrowNeedGrows(t: Page, lo: nat, p: nat, q: nat)
    requires lo <= p <= q <= NPAGES
    ensures GrowNeed(t, lo, p) <= GrowNeed(t, lo, q)
    decreases q
  {
    if p < q {
      GrowNeedGrows(t, lo, p, q - 1);
    }
  }

  /** Pages [lo, k) of d are vacant, and a frames are too few for pages [lo, k]. */
  ghost predicate ShortPage(m: Mem, d: Frame, lo: nat, k: nat, a: nat) {
    lo <= k && d in m && Vacant(m, d, lo, k - lo) && a < GrowNeed(m[d], lo, k + 1)
  }

  /** A frames are too few for pages [lo, hi) of d, as far as the first that is mapped already. */
  ghost predicate GrowRunsOut(m: Mem, d: Frame, lo: nat, hi: nat, a: nat) {
    exists k | lo <= k < hi :: ShortPage(m, d, lo, k, a)
  }

  /** How one round of the loop of allocuvm bears on the outcome of the whole loop. */
  lemma GrowOutcome(m: Mem, a: nat, n: Mem, b: nat, q: Mem, c: nat, d: Frame, lo: nat, x: nat, hi: nat, r: Mapped)
    requires lo <= x < hi <= NPAGES && GrowCharged(m, a, n, b, d, lo, x)
    requires r.NoMemory? <==> NoRoom(n, b, d, x)
    requires r.Remap? <==> !r.NoMemory? && !Vacant(m, d, x, 1)
    requires r.Done? ==> Paid(n, b, q, c, d, x, 1)
    ensures r.Done? ==> GrowCharged(m, a, q, c, d, lo, x + 1)
    ensures r.NoMemory? ==> GrowRunsOut(m, d, lo, hi, a)
    ensures r.Remap? ==> !GrowRunsOut(m, d, lo, hi, a) && !Vacant(m, d, lo, hi - lo)
  {
    assert GrowNeed(m[d], lo, x + 1) == GrowNeed(m[d], lo, x) + 1 + TableCost(n[d], x) by {
      GrowNeedNext(m[d], n[d], lo, x);
    }
    match r
    case Done => FilledNext(m[d], n[d], q[d], lo, x);
    case NoMemory => assert ShortPage(m, d, lo, x, a);
    case Remap =>
      assert Lookup(m, d, x).Some?;
      GrowSuffices(m, a, d, lo, x, hi);
  }

  lemma GrowEnds(m: Mem, a: nat, n: Mem, b: nat, d: Frame, lo: nat, hi: nat)
    requires lo <= hi <= NPAGES && GrowCharged(m, a, n, b, d, lo, hi)
    ensures !GrowRunsOut(m, d, lo, hi, a) && Vacant(m, d, lo, hi - lo)
  {
    GrowSuffices(m, a, d, lo, hi, hi);
  }

  lemma GrowSuffices(m: Mem, a: nat, d: Frame, lo: nat, p: nat, hi: nat)
    requires lo <= p <= hi <= NPAGES && d in m && (p == hi || Lookup(m, d, p).Some?)
    requires GrowNeed(m[d], lo, if p < hi then p + 1 else p) <= a
    ensures !GrowRunsOut(m, d, lo, hi, a)
  {
    forall k | lo <= k < hi ensures !ShortPage(m, d, lo, k, a) {
      if k <= p { GrowNeedGrows(m[d], lo, k + 1, if p < hi then p + 1 else p); }
    }
  }

  /** Pages [lo, hi) of d are gone and their frames free; d may have kept new empty tables. */
  ghost predicate TakenBack(m: Mem, u: Uses, n: Mem, w: Uses, d: Frame, lo: nat, hi: nat)
    requires m.Keys == u.Keys
  {
    && Unmapped(m, u, n, d, lo, hi) && w.Keys == u.Keys && n.Keys == m.Keys
    && (forall g | g in u ::
          || w[g] == (if UserIn(u[g], d, lo, hi) then Free else u[g])
          || (u[g].Free? && w[g].Table? && w[g].dir == d))
    && (forall g | g in u && !u[g].Free? && !w[g].Free? && !PagingOf(u[g], g, d) :: n[g] == m[g])
  }

  /** If nothing was mapped there, a failed growth leaves every space as it was. */
  lemma TakenBackSame(m: Mem, u: Uses, n: Mem, w: Uses, d: Frame, lo: nat, hi: nat)
    requires m.Keys == u.Keys && TakenBack(m, u, n, w, d, lo, hi) && hi <= NPAGES && lo <= hi && Vacant(m, d, lo, hi - lo)
    ensures forall e, x | IsDir(u, e) && 0 <= x < NPAGES :: Lookup(n, e, x) == Lookup(m, e, x)
  {
  }

  lemma FreshStays(u: Uses, n: Mem, w: Uses, q: Mem, d: Frame, x: nat)
    requires Tied(n, w) && IsDir(w, d) && x < USERPAGES && FreshPage(u, n, d, x)
    requires Kept(n, w, q, d) && Lookup(q, d, x) == Lookup(n, d, x)
    ensures FreshPage(u, q, d, x)
  {
    LookupUser(n, w, d, x);
  }

  /** One more fresh page. */
  lemma GrownNext(m: Mem, u: Uses, n: Mem, w: Uses, q: Mem, y: Uses, d: Frame, lo: nat, p: nat, f: Frame)
    requires m.Keys == u.Keys && Tied(n, w) && IsDir(u, d) && IsDir(w, d) && lo <= p < USERPAGES && Grown(m, u, n, w, d, lo, p)
    requires f in w && w[f].Free?
    requires MappedTo(n[f := Cleared()], w[f := Held], q, y, d, p, 1, f, PTE_W + PTE_U)
    ensures Grown(m, u, q, y, d, lo, p + 1)
  {
    assert OnePage(n, w, q, d, p) by { MappedOne(n, w, f, Cleared(), q, y, d, p, PTE_W + PTE_U); }
    assert FreshPage(u, q, d, p) by { GrownPage(u, w, n[f := Cleared()], q, y, d, p, f); }
    assert GrewUser(u, y, d, lo, p + 1) by { GrewNext(u, w, y, d, lo, p, f); }
    GrownAround(m, u, n, w, q, d, lo, p);
  }

  lemma GrownAround(m: Mem, u: Uses, n: Mem, w: Uses, q: Mem, d: Frame, lo: nat, p: nat)
    requires m.Keys == u.Keys && Tied(n, w) && IsDir(u, d) && IsDir(w, d) && lo <= p < USERPAGES && Grown(m, u, n, w, d, lo, p)
    requires OnePage(n, w, q, d, p)
    ensures Kept(m, u, q, d) && forall x | lo <= x < p :: FreshPage(u, q, d, x)
    ensures forall e, x | IsDir(u, e) && 0 <= x < NPAGES && !(e == d && lo <= x < p + 1) :: Lookup(q, e, x) == Lookup(m, e, x)
  {
    forall x | lo <= x < p ensures FreshPage(u, q, d, x) {
      FreshStays(u, n, w, q, d, x);
    }
    assert forall e | IsDir(u, e) :: IsDir(w, e);
    forall g | g in u && !u[g].Free? && !PagingOf(u[g], g, d) ensures q[g] == m[g] {
      assert w[g] == u[g];
    }
  }

  lemma GrownPage(u: Uses, w: Uses, c: Mem, q: Mem, y: Uses, d: Frame, p: nat, f: Frame)
    requires c.Keys == w.Keys && IsDir(w, d) && p < USERPAGES && f in w && w[f].Free? && f in u && u[f].Free? && c[f] == Cleared()
    requires MappedTo(c, w[f := Held], q, y, d, p, 1, f, PTE_W + PTE_U)
    ensures FreshPage(u, q, d, p)
  {
    EntryFields(f, PTE_W + PTE_U);
    assert IsDir(w[f := Held], d);
    assert Lookup(q, d, p) == Some(Entry(f, PTE_W + PTE_U));
    assert q[f] == c[f];
  }

  lemma GrownVacant(m: Mem, u: Uses, n: Mem, w: Uses, d: Frame, lo: nat, p: nat, f: Frame, c: Page)
    requires m.Keys == u.Keys && Tied(n, w) && IsDir(u, d) && IsDir(w, d) && lo <= p < USERPAGES && Grown(m, u, n, w, d, lo, p)
    requires f in w && Unlinked(w[f])
    ensures Vacant(m, d, p, 1) <==> Vacant(n[f := c], d, p, 1)
  {
    PageWritten(n, w, f, c);
    assert Lookup(n[f := c], d, p) == Lookup(n, d, p) == Lookup(m, d, p);
  }

  lemma GrewNext(u: Uses, w: Uses, y: Uses, d: Frame, lo: nat, p: nat, f: Frame)
    requires lo <= p < USERPAGES && GrewUser(u, w, d, lo, p) && f in w && w[f].Free?
    requires Took(w[f := Held], y, d, p, 1, f)
    ensures GrewUser(u, y, d, lo, p + 1)
  {
  }

  /** deallocuvm over the whole range undoes a growth that stopped at page p. */
  lemma RolledBack(m: Mem, u: Uses, n: Mem, w: Uses, q: Mem, y: Uses, d: Frame, lo: nat, p: nat, hi: nat)
    requires m.Keys == u.Keys && n.Keys == w.Keys && IsDir(u, d) && lo <= p <= hi
    requires Grown(m, u, n, w, d, lo, p) && Emptied(n, w, q, y, d, lo, hi)
    ensures TakenBack(m, u, q, y, d, lo, hi)
  {
    forall e, x | IsDir(u, e) && 0 <= x < NPAGES
      ensures Lookup(q, e, x) == if e == d && lo <= x < hi then None else Lookup(m, e, x)
    {
      assert IsDir(w, e);
    }
    forall g | g in u && !u[g].Free? && !y[g].Free? && !PagingOf(u[g], g, d) ensures q[g] == m[g] {
      assert w[g] == u[g] && y[g] == w[g];
    }
  }

  /** The frame that could not be mapped, and whatever it holds, is freed last. */
  lemma HeldFreed(n: Mem, w: Uses, b: Page, q: Mem, y: Uses, d: Frame, lo: nat, hi: nat, f: Frame, c: Page)
    requires Tied(n, w) && f in w && w[f].Free? && Tied(q, y) && f != d
    requires Emptied(n[f := b], w[f := Held], q, y, d, lo, hi)
    ensures f in y && y[f].Held? && Emptied(n, w, q[f := c], y[f := Free], d, lo, hi)
  {
    var v := w[f := Held];
    assert v[f] == Held && y[f] == Held;
    assert Dropped(w, y[f := Free], d, lo, hi);
    HeldUnmapped(n, w, b, q, y, d, lo, hi, f, c);
  }

  lemma HeldUnmapped(n: Mem, w: Uses, b: Page, q: Mem, y: Uses, d: Frame, lo: nat, hi: nat, f: Frame, c: Page)
    requires Tied(n, w) && f in w && w[f].Free? && Tied(q, y) && f in y && y[f].Held?
    requires Unmapped(n[f := b], w[f := Held], q, d, lo, hi) && Dropped(w[f := Held], y, d, lo, hi)
    ensures Unmapped(n, w, q[f := c], d, lo, hi)
  {
    var v, p, r := w[f := Held], n[f := b], q[f := c];
    PageWritten(n, w, f, b);
    PageWritten(q, y, f, c);
    forall e, x | IsDir(w, e) && 0 <= x < NPAGES
      ensures Lookup(r, e, x) == if e == d && lo <= x < hi then None else Lookup(n, e, x)
    {
      assert IsDir(v, e) && IsDir(y, e);
      assert Lookup(r, e, x) == Lookup(q, e, x) && Lookup(p, e, x) == Lookup(n, e, x);
    }
  }

  /** A frame that lies from frame `first` on and ends at or below vend. */
  predicate Within(f: Frame, first: Frame, vend: nat) { first <= f && Addr(f) + PGSIZE <= vend }

  ghost predicate AllHeld(u: Uses, first: Frame, vend: nat) {
    forall f | f in u && Within(f, first, vend) :: u[f].Held?
  }

  /** Those frames are free, and no other use has changed. */
  ghost predicate AllFreed(u: Uses, w: Uses, first: Frame, vend: nat) {
    w.Keys == u.Keys && forall f | f in u :: w[f] == if Within(f, first, vend) then Free else u[f]
  }

  /** As far as frame g. */
  ghost predicate FreedUpTo(u: Uses, w: Uses, first: Frame, g: Frame) {
    w.Keys == u.Keys && forall f | f in u :: w[f] == if first <= f < g then Free else u[f]
  }

  lemma FreedOne(u: Uses, w: Uses, first: Frame, g: Frame, vend: nat)
    requires AllHeld(u, first, vend) && FreedUpTo(u, w, first, g) && g in u && Within(g, first, vend)
    ensures w[g].Held? && FreedUpTo(u, w[g := Free], first, g + 1)
  {
  }

  lemma FreedAll(u: Uses, w: Uses, first: Frame, g: Frame, vend: nat)
    requires FreedUpTo(u, w, first, g) && !Within(g, first, vend) && first <= g && (first < g ==> Within(g - 1, first, vend))
    ensures AllFreed(u, w, first, vend)
  {
  }
}
