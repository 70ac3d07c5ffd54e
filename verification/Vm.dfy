/** Physical frames and page tables, updated in place: kalloc.c and vm.c.

    Ghost state says what every frame is used for; Valid ties it to the free list and to the page
    tables. Panics are reported in a result.
 */
module Vm {
  import opened Common
  import opened PageTables
  import opened FrameList
  import opened AddressSpaces
  import opened KernelMap
  import opened UserSpace

  datatype Copying = Copied | Full | NoTable

  datatype Growth = Resized | Refused | OutOfMemory | Panic

  class Memory {
    // the first address after the kernel, and the frame where its data begin
    const end: nat
    const data: Frame

    var mem: Mem
    var freelist: nat
    ghost var free: seq<Frame>
    ghost var use: Uses

    predicate Managed(f: Frame) { end <= Addr(f) && f * PGSIZE < PHYSTOP }

    ghost predicate Lists()
      reads this
    {
      KERNBASE < end && EXTMEM / PGSIZE < data < PHYSTOP / PGSIZE && (forall f :: f in use <==> Managed(f)) && FreeList(mem, use, freelist, free)
    }

    ghost predicate Valid()
      reads this
    {
      Lists() && Tied(mem, use)
    }

    /** Memory as the boot loader leaves it: every frame after the kernel is in hand, none is free. */
    constructor (end: nat, data: Frame, pages: Mem)
      requires KERNBASE < end && EXTMEM / PGSIZE < data < PHYSTOP / PGSIZE
      requires forall f: nat :: f in pages <==> end <= Addr(f) && f * PGSIZE < PHYSTOP
      ensures Valid() && this.end == end && this.data == data && mem == pages
      ensures forall f | f in use :: use[f].Held?
    {
      this.end := end;
      this.data := data;
      mem := pages;
      freelist := 0;
      free := [];
      use := map f | f in pages :: Held;
    }

    /** The frame of a free page, or 0 if there is none. */
    method Kalloc() returns (f: Frame)
      requires Valid()
      modifies this
      ensures Valid() && mem == old(mem)
      ensures f == 0 ==> use == old(use) && free == old(free) == [] && Exhausted(use)
      ensures f != 0 ==> f in use && old(use)[f].Free? && use == old(use)[f := Held] && |free| + 1 == |old(free)|
    {
      if freelist == 0 {
        EmptyFree(mem, use, free);
        return 0;
      }
      f := FrameAt(freelist);
      assert f == free[0];
      PopFree(mem, use, freelist, free);
      UseTied(mem, use, f, Held);
      freelist := mem[f][0];
      free := free[1..];
      use := use[f := Held];
    }

    /** Puts the page at v on the list; anything but a whole frame after the kernel is a panic. */
    method Kfree(v: nat) returns (ok: bool)
      requires Lists()
      requires FrameAt(v) in use ==> !use[FrameAt(v)].Free?
      modifies this
      ensures Lists()
      ensures ok <==> v % PGSIZE == 0 && Managed(FrameAt(v))
      ensures !ok ==> mem == old(mem) && use == old(use)
      ensures ok ==> use == old(use)[FrameAt(v) := Free] && mem == old(mem)[FrameAt(v) := Junk(old(freelist))]
    {
      if v % PGSIZE != 0 || v < end || v - KERNBASE >= PHYSTOP {
        return false;
      }
      var f := FrameAt(v);
      assert v == Addr(f) && Managed(f);
      PushFree(mem, use, freelist, free, f, Junk(freelist));
      mem := mem[f := Junk(freelist)];
      freelist := v;
      free := [f] + free;
      use := use[f := Free];
      ok := true;
    }

    /** Clears a page and puts it in an empty slot of the directory. */
    method InstallTable(d: Frame, i: nat, t: Frame)
      requires Valid() && IsDir(use, d) && i < ENTRIES && !Present(mem[d][i]) && t in use && use[t].Held?
      modifies this
      ensures Valid() && use == old(use)[t := Table(d, i)] && mem == WithTable(old(mem), d, i, t) && free == old(free)
    {
      WithTableTied(mem, use, d, i, t);
      KeepFree(mem, use, freelist, free, WithTable(mem, d, i, t), use[t := Table(d, i)]);
      mem := mem[t := Cleared()];
      mem := mem[d := mem[d][i := Entry(t, PTE_W + PTE_U)]];
      use := use[t := Table(d, i)];
    }

    /** A new page table in an empty slot of the directory; 0 if there is no memory. */
    method AddTable(d: Frame, i: nat) returns (t: Frame)
      requires Valid() && IsDir(use, d) && i < ENTRIES && !Present(mem[d][i])
      modifies this
      ensures Valid()
      ensures t == 0 ==> mem == old(mem) && use == old(use) && free == old(free) == [] && Exhausted(use)
      ensures t != 0 ==> t in use && old(use)[t].Free? && use == old(use)[t := Table(d, i)] && |free| + 1 == |old(free)|
      ensures d in mem && (t != 0 ==> Slots(mem[d]) == Slots(old(mem)[d]) + {i})
      ensures SameSpaces(old(mem), old(use), mem)
      ensures Kept(old(mem), old(use), mem, d)
    {
      t := Kalloc();
      if t != 0 {
        WithTableSpaces(old(mem), old(use), d, i, t);
        InstallTable(d, i, t);
        EntryPresent(t, PTE_W + PTE_U);
        SlotFilled(old(mem)[d], i, Entry(t, PTE_W + PTE_U));
      }
    }

    /** walkpgdir: the frame of the table with the entry for va, which is its entry Ptx(va); made if
        alloc, and 0 if there is none. */
    method Walk(d: Frame, va: nat, alloc: bool) returns (t: Frame)
      requires Valid() && IsDir(use, d) && va < SPAN
      modifies this
      ensures Valid()
      ensures t == 0 ==> mem == old(mem) && use == old(use) && free == old(free) && !Present(mem[d][Pdx(va)])
      ensures t == 0 && alloc ==> Exhausted(use) && free == []
      ensures t != 0 ==> t in use && use[t] == Table(d, Pdx(va))
      ensures !alloc || Present(old(mem)[d][Pdx(va)]) ==> mem == old(mem) && use == old(use) && free == old(free)
      ensures d in mem && (t != 0 ==> Slots(mem[d]) == Slots(old(mem)[d]) + {Pdx(va)})
      ensures t != 0 && Pdx(va) !in Slots(old(mem)[d]) ==> |free| + 1 == |old(free)|
      ensures Grew(old(use), use, d, Pdx(va))
      ensures SameSpaces(old(mem), old(use), mem)
      ensures Kept(old(mem), old(use), mem, d)
    {
      var i := Pdx(va);
      if Present(mem[d][i]) {
        t := FrameOf(mem[d][i]);
      } else if !alloc {
        t := 0;
      } else {
        t := AddTable(d, i);
      }
    }

    /** `*pte = pa | perm | PTE_P` on an entry that is not present. */
    method PutEntry(t: Frame, j: nat, f: Frame, perm: nat)
      requires Valid() && t in use && use[t].Table? && j < ENTRIES && perm < PGSIZE && !Present(mem[t][j])
      requires use[t].slot < USERSLOTS ==> f in use && use[f].Held?
      modifies this
      ensures Valid()
      ensures use == Given(old(use), old(use)[t].dir, old(use)[t].slot, j, f) && free == old(free)
      ensures mem == old(mem)[t := old(mem)[t][j := Entry(f, perm)]]
    {
      ghost var u := Given(use, use[t].dir, use[t].slot, j, f);
      var n := mem[t := mem[t][j := Entry(f, perm)]];
      assert Tied(n, u) && u.Keys == use.Keys by { PutTied(mem, use, t, j, f, Entry(f, perm)); }
      assert FreeList(n, u, freelist, free) by { KeepFree(mem, use, freelist, free, n, u); }
      mem := n;
      use := u;
    }

    /** One round of mappages: page p gets frame f. */
    method MapPage(d: Frame, p: nat, f: Frame, perm: nat) returns (r: Mapped)
      requires Valid() && IsDir(use, d) && p < NPAGES && perm < PGSIZE && Handed(use, p, 1, f)
      modifies this
      ensures Valid()
      ensures !r.Done? ==> mem == old(mem) && use == old(use) && free == old(free)
      ensures r.NoMemory? ==> Exhausted(use)
      ensures r.NoMemory? <==> Short(old(mem), |old(free)|, d, p)
      ensures r.Remap? <==> Lookup(old(mem), d, p).Some?
      ensures r.Done? ==> MappedTo(old(mem), old(use), mem, use, d, p, 1, f, perm)
      ensures r.Done? ==> d in mem && Slots(mem[d]) == Slots(old(mem)[d]) + {p / ENTRIES}
      ensures r.Done? ==> |free| + TableCost(old(mem)[d], p) == |old(free)|
    {
      PageAt(p);
      var t := Walk(d, p * PGSIZE, true);
      if t == 0 {
        return NoMemory;
      }
      var i, j, w := p / ENTRIES, p % ENTRIES, Entry(f, perm);
      assert Leaf(mem, d, i, j) == if Present(mem[t][j]) then Some(mem[t][j]) else None by {
        TableEntry(mem, use, t, j);
      }
      if Present(mem[t][j]) {
        return Remap;
      }
      ghost var n, u := mem[t := mem[t][j := w]], Given(use, d, i, j, f);
      assert f in use && p < USERPAGES ==> use[f].Held?;
      assert MappedTo(old(mem), old(use), n, u, d, p, 1, f, perm) by {
        PageMapped(old(mem), old(use), mem, use, d, p, t, f, perm);
      }
      PutEntry(t, j, f, perm);
      r := Done;
    }

    /** One more page, after `done` pages from page v on were mapped to frames from f on. */
    method MapNext(d: Frame, p: nat, g: Frame, perm: nat, ghost m: Mem, ghost u: Uses, ghost v: nat, ghost done: nat,
                   ghost f: Frame, ghost k: nat, ghost a: nat)
      returns (r: Mapped)
      requires Valid() && IsDir(use, d) && p == v + done < NPAGES && g == f + done && perm < PGSIZE
      requires m.Keys == u.Keys && IsDir(u, d) && done < k && Handed(u, v, k, f)
      requires MappedTo(m, u, mem, use, d, v, done, f, perm) && Charged(m, a, mem, |free|, d) && Vacant(m, d, v, done)
      modifies this
      ensures Valid() && IsDir(use, d) && MappedTo(m, u, mem, use, d, v, if r.Done? then done + 1 else done, f, perm)
      ensures r.NoMemory? ==> Exhausted(use)
      ensures Vacant(m, d, v, k) ==> !r.Remap?
      ensures !r.Done? ==> mem == old(mem) && use == old(use) && free == old(free)
      ensures r.NoMemory? ==> Short(mem, |free|, d, p)
      ensures Charged(m, a, mem, |free|, d) && (r.Done? ==> Vacant(m, d, v, done + 1))
    {
      ghost var n, w := mem, use;
      TookDirs(u, w, d, v, done, f, k);
      r := MapPage(d, p, g, perm);
      if r.Done? {
        MappedNext(m, u, n, w, mem, use, d, v, done, f, perm, p, g);
        ChargedNext(m, a, n, |old(free)|, mem, |free|, d, p);
        VacantNext(m, u, n, d, v, done, f, perm, p);
      }
    }

    /** The loop of mappages, over k pages from page v on. It stops short at the first page that is
        mapped already or needs a table when no frame is free. */
    method MapRange(d: Frame, v: nat, k: nat, f: Frame, perm: nat) returns (r: Mapped, ghost done: nat, ghost at: nat)
      requires Valid() && IsDir(use, d) && 0 < k && v + k <= NPAGES && perm < PGSIZE && Handed(use, v, k, f)
      modifies this
      ensures Valid() && IsDir(use, d)
      ensures done <= k && (r.Done? <==> done == k)
      ensures MappedTo(old(mem), old(use), mem, use, d, v, done, f, perm)
      ensures done == 0 ==> mem == old(mem) && use == old(use) && free == old(free)
      ensures r.NoMemory? ==> Exhausted(use)
      ensures !r.Done? ==> at == v + done
      ensures r.NoMemory? ==> Short(mem, |free|, d, at)
      ensures Vacant(old(mem), d, v, done) && (r.Remap? ==> !Vacant(old(mem), d, v, k))
      ensures Charged(old(mem), |old(free)|, mem, |free|, d)
    {
      var p, g := v, f;
      done := 0;
      while true
        invariant Valid() && IsDir(use, d) && g == f + done && p == v + done < v + k
        invariant MappedTo(old(mem), old(use), mem, use, d, v, done, f, perm)
        invariant done == 0 ==> mem == old(mem) && use == old(use) && free == old(free)
        invariant Charged(old(mem), |old(free)|, mem, |free|, d) && Vacant(old(mem), d, v, done)
        decreases v + k - p
      {
        at := p;
        r := MapNext(d, p, g, perm, old(mem), old(use), v, done, f, k, |old(free)|);
        if !r.Done? {
          return;
        }
        done := done + 1;
        if p == v + k - 1 {
          return;
        }
        p := p + 1;
        g := g + 1;
      }
    }

    /** mappages: the pages that hold the addresses from va to va + size - 1 get frames from f on. */
    method MapPages(d: Frame, va: nat, size: nat, f: Frame, perm: nat) returns (r: Mapped, ghost done: nat)
      requires Valid() && IsDir(use, d) && 0 < size && va + size <= SPAN && perm < PGSIZE
      requires Handed(use, va / PGSIZE, (va + size - 1) / PGSIZE + 1 - va / PGSIZE, f)
      modifies this
      ensures Valid() && IsDir(use, d)
      ensures r.Done? <==> done == (va + size - 1) / PGSIZE + 1 - va / PGSIZE
      ensures MappedTo(old(mem), old(use), mem, use, d, va / PGSIZE, done, f, perm)
      ensures r.NoMemory? ==> Exhausted(use)
      ensures r.Remap? ==> !Vacant(old(mem), d, va / PGSIZE, (va + size - 1) / PGSIZE + 1 - va / PGSIZE)
      ensures Vacant(old(mem), d, va / PGSIZE, done)
    {
      ghost var at;
      r, done, at := MapRange(d, va / PGSIZE, (va + size - 1) / PGSIZE + 1 - va / PGSIZE, f, perm);
    }

    /** Frees a frame that is mapped nowhere. */
    method FreeHeld(f: Frame)
      requires Valid() && f in use && use[f].Held?
      modifies this
      ensures Valid() && use == old(use)[f := Free] && mem == old(mem)[f := Junk(old(freelist))]
    {
      FrameAtAddr(f);
      ghost var n, u := mem[f := Junk(freelist)], use[f := Free];
      assert Tied(n, u) by {
        UseTied(mem, use, f, Free);
        ContentsTied(mem, u, f, Junk(freelist));
      }
      var ok := Kfree(Addr(f));
    }

    /** freerange: frees the frames from the first whole one at or above vstart to the last that ends
        at or below vend; a panic if one of them is not a frame after the kernel. */
    method Freerange(vstart: nat, vend: nat) returns (ok: bool)
      requires Valid() && KERNBASE <= vstart && AllHeld(use, PagesFor(vstart - KERNBASE), vend)
      modifies this
      ensures Valid()
      ensures end <= vstart && vend <= KERNBASE + PHYSTOP ==> ok
      ensures ok ==> AllFreed(old(use), use, PagesFor(vstart - KERNBASE), vend)
    {
      ok := FreeFrames(PagesFor(vstart - KERNBASE), vend);
      assert end <= vstart ==> end <= Addr(PagesFor(vstart - KERNBASE));
    }

    method FreeFrames(first: Frame, vend: nat) returns (ok: bool)
      requires Valid() && AllHeld(use, first, vend)
      modifies this
      ensures Valid()
      ensures end <= Addr(first) && vend <= KERNBASE + PHYSTOP ==> ok
      ensures ok ==> AllFreed(old(use), use, first, vend)
    {
      var g := first;
      while Addr(g) + PGSIZE <= vend
        invariant first <= g && Valid() && FreedUpTo(old(use), use, first, g)
        invariant first < g ==> Within(g - 1, first, vend)
        decreases vend - Addr(g)
      {
        if !Managed(g) {
          return false;
        }
        FreedOne(old(use), use, first, g, vend);
        FreeHeld(g);
        g := g + 1;
      }
      FreedAll(old(use), use, first, g, vend);
      ok := true;
    }

    /** `kfree(P2V(pa)); *pte = 0;` on a present user entry. */
    method DropEntry(t: Frame, j: nat)
      requires Valid() && t in use && use[t].Table? && use[t].slot < USERSLOTS && j < ENTRIES && Present(mem[t][j])
      modifies this
      ensures Valid()
      ensures var f := FrameOf(old(mem)[t][j]);
              && f in use && f != t && old(use)[f] == User(old(use)[t].dir, old(use)[t].slot, j) && use == old(use)[f := Free]
              && mem == WithoutPage(old(mem), t, j, f, Junk(old(freelist)))
    {
      var f := FrameOf(mem[t][j]);
      ghost var u := use[f := Free];
      assert f in use && f != t && use[f] == User(use[t].dir, use[t].slot, j)
             && Tied(WithoutPage(mem, t, j, f, Junk(freelist)), u) by {
        WithoutPageTied(mem, use, t, j, f, Junk(freelist));
      }
      FrameAtAddr(f);
      var ok := Kfree(Addr(f));
      var n := mem[t := mem[t][j := 0]];
      assert FreeList(n, u, freelist, free) by { KeepFree(mem, use, freelist, free, n, u); }
      mem := n;
    }

    /** One round of deallocuvm: page p, or all that is left of its slot if the slot has no table. */
    method DropPage(d: Frame, p: nat, ghost hi: nat) returns (next: nat)
      requires Valid() && IsDir(use, d) && p < hi <= USERPAGES
      modifies this
      ensures Valid() && p < next
      ensures Emptied(old(mem), old(use), mem, use, d, p, Min(next, hi))
    {
      PageAt(p);
      var i, j := p / ENTRIES, p % ENTRIES;
      var t := Walk(d, p * PGSIZE, false);
      if t == 0 {
        next := (i + 1) * ENTRIES;
        SlotAbsent(mem, d, p, Min(next, hi));
        NoUserWhereUnmapped(mem, use, d, p, Min(next, hi));
        return;
      }
      next := p + 1;
      TableEntry(mem, use, t, j);
      if Present(mem[t][j]) {
        ghost var m, u, list := mem, use, freelist;
        DropEntry(t, j);
        ghost var f := FrameOf(m[t][j]);
        assert Emptied(m, u, mem, use, d, p, p + 1) by { PageDropped(m, u, t, j, f, Junk(list), d, p); }
      } else {
        NoUserWhereUnmapped(mem, use, d, p, p + 1);
      }
    }

    /** deallocuvm: unmaps and frees the mapped pages that lie at or above newsz and below oldsz. */
    method Deallocuvm(d: Frame, oldsz: nat, newsz: nat) returns (sz: nat)
      requires Valid() && IsDir(use, d) && oldsz <= KERNBASE
      modifies this
      ensures Valid() && sz == Min(oldsz, newsz)
      ensures newsz >= oldsz ==> mem == old(mem) && use == old(use)
      ensures newsz < oldsz ==> Emptied(old(mem), old(use), mem, use, d, PagesFor(newsz), PagesFor(oldsz))
    {
      if newsz >= oldsz {
        return oldsz;
      }
      var p, hi := PagesFor(newsz), PagesFor(oldsz);
      ghost var lo := p;
      while p < hi
        invariant Valid() && IsDir(use, d) && lo <= p && lo <= hi <= USERPAGES
        invariant Emptied(old(mem), old(use), mem, use, d, lo, Min(p, hi))
        decreases hi - p
      {
        ghost var n, w := mem, use;
        var next := DropPage(d, p, hi);
        EmptiedNext(old(mem), old(use), n, w, mem, use, d, lo, p, Min(next, hi));
        p := next;
      }
      sz := newsz;
    }

    /** Frees the table in slot i of a directory that is only held. */
    method FreeSlot(d: Frame, i: nat, ghost u: Uses, ghost m: Mem)
      requires Valid() && d in mem && SlotTable(mem[d], u, d, i) && FreedBelow(u, use, d, i) && m.Keys == use.Keys
      requires Kept(m, use, mem, d)
      modifies this
      ensures Valid() && FreedBelow(u, use, d, i + 1) && mem.Keys == m.Keys && mem[d] == old(mem)[d] && Kept(m, use, mem, d)
    {
      SlotFreed(mem[d], u, use, d, i);
      if Present(mem[d][i]) {
        FreeHeld(FrameOf(mem[d][i]));
      }
    }

    /** Frees the tables of a directory that is only held, slot by slot. */
    method FreeTables(d: Frame, ghost u: Uses)
      requires Valid() && use == Demoted(u, d) && IsDir(u, d) && forall i | 0 <= i < ENTRIES :: SlotTable(mem[d], u, d, i)
      modifies this
      ensures Valid() && FreedBelow(u, use, d, ENTRIES) && Kept(old(mem), use, mem, d)
    {
      var i := 0;
      while i < ENTRIES
        invariant 0 <= i <= ENTRIES && Valid() && FreedBelow(u, use, d, i)
        invariant mem.Keys == old(mem).Keys && mem[d] == old(mem)[d] && Kept(old(mem), use, mem, d)
      {
        FreeSlot(d, i, u, old(mem));
        i := i + 1;
      }
    }

    /** Makes a directory without user pages an ordinary page in hand, and its tables with it. */
    ghost method Demote(d: Frame)
      requires Valid() && IsDir(use, d) && forall g | g in use && use[g].User? :: use[g].dir != d
      modifies this`use
      ensures Valid() && use == Demoted(old(use), d)
    {
      ghost var w := Demoted(use, d);
      assert Tied(mem, w) by { DemotedTied(mem, use, d); }
      assert FreeList(mem, w, freelist, free) by { KeepFree(mem, use, freelist, free, mem, w); }
      use := w;
    }

    /** freevm: every frame of the space is freed, and no other frame. */
    method Freevm(d: Frame)
      requires Valid() && IsDir(use, d)
      modifies this
      ensures Valid() && Released(old(use), use, d) && Kept(old(mem), use, mem, d) && OthersSame(old(mem), old(use), mem, d)
    {
      var _ := Deallocuvm(d, KERNBASE, 0);
      ghost var n, v := mem, use;
      UsersBelow(old(mem), old(use), v, d);
      SlotUse(n, v, d);
      Demote(d);
      FreeTables(d, v);
      ghost var q, w, list := mem, use, freelist;
      FreeHeld(d);
      assert Released(old(use), use, d) by {
        SlotBounds(old(mem), old(use));
        FreedReleased(old(use), v, w, d);
      }
      assert Kept(old(mem), use, mem, d) by {
        SlotBounds(n, v);
        FreedKeeps(old(mem), v, n, w, q, d, Junk(list));
      }
      ReleasedOthers(old(mem), old(use), mem, use, d);
    }

    /** memset or memmove of a whole page in hand. */
    method FillPage(f: Frame, p: Page)
      requires Valid() && f in use && use[f].Held?
      modifies this`mem
      ensures Valid() && mem == old(mem)[f := p]
    {
      var n := mem[f := p];
      assert Tied(n, use) by { ContentsTied(mem, use, f, p); }
      assert FreeList(n, use, freelist, free) by { KeepFree(mem, use, freelist, free, n, use); }
      mem := n;
    }

    /** An empty page directory; 0 if no frame is free. */
    method NewDir() returns (d: Frame)
      requires Valid()
      modifies this
      ensures Valid()
      ensures d == 0 ==> mem == old(mem) && use == old(use) && free == old(free) == []
      ensures d != 0 ==> d in use && old(use)[d].Free? && use == old(use)[d := Dir] && mem == old(mem)[d := Cleared()]
      ensures d != 0 ==> |free| + 1 == |old(free)|
    {
      d := Kalloc();
      if d != 0 {
        FillPage(d, Cleared());
        ghost var u := use[d := Dir];
        assert Tied(mem, u) by { DirTied(mem, use, d); }
        assert FreeList(mem, u, freelist, free) by { KeepFree(mem, use, freelist, free, mem, u); }
        use := u;
      }
    }

    /** Gives up a space under construction. */
    method Abandon(d: Frame, ghost m: Mem, ghost u: Uses)
      requires Valid() && m.Keys == u.Keys && NewSpace(u, use, d, {}) && Intact(m, u, mem)
      modifies this
      ensures Valid() && use == u && Intact(m, u, mem)
    {
      ghost var n, w := mem, use;
      Freevm(d);
      Undone(m, u, n, w, mem, use, d);
    }

    /** One row of kmap. */
    method MapKernel(d: Frame, i: nat, ghost m: Mem, ghost u: Uses) returns (ok: bool)
      requires Valid() && i < 4 && m.Keys == u.Keys
      requires NewSpace(u, use, d, {}) && Intact(m, u, mem) && ReadsKernel(mem, d, data, i)
      requires Slots(mem[d]) == RowSlots(data, i)
      modifies this
      ensures Valid() && NewSpace(u, use, d, {}) && Intact(m, u, mem)
      ensures d in mem && |old(free)| + |Slots(old(mem)[d])| == |free| + |Slots(mem[d])|
      ensures ok ==> ReadsKernel(mem, d, data, i + 1) && Slots(mem[d]) == RowSlots(data, i + 1)
      ensures !ok ==> free == [] && |Slots(mem[d])| < KTABLES
    {
      var s := Kmap(data, i);
      ghost var n, w := mem, use;
      SegmentVacant(mem, d, data, i);
      var r, done, at := MapRange(d, s.v, s.k, s.f, s.perm);
      assert NewSpace(u, use, d, {}) && Intact(m, u, mem) by {
        NewSpaceMaps(m, u, n, w, mem, use, d, {}, s.v, done, s.f, s.perm);
      }
      assert Slots(mem[d]) == RowSlots(data, i) + SlotsOf(s.v, done) by {
        MappedSlots(n, w, mem, use, d, s.v, done, s.f, s.perm);
      }
      ok := r.Done?;
      if ok {
        NextSegment(n, w, mem, d, data, i);
      } else {
        RowShort(Slots(mem[d]), data, i, done, at);
      }
    }

    /** setupkvm: a space with the kernel's pages and no others; or nothing is taken and 0 returned. */
    method Setupkvm() returns (d: Frame)
      requires Valid()
      modifies this
      ensures Valid() && Intact(old(mem), old(use), mem)
      ensures d == 0 <==> |old(free)| < 1 + KTABLES
      ensures d == 0 ==> use == old(use)
      ensures d != 0 ==> NewSpace(old(use), use, d, {}) && ReadsKernel(mem, d, data, 4)
      ensures d != 0 ==> forall x | 0 <= x < NPAGES :: KernelAt(mem, d, data, x)
      ensures d != 0 ==> Slots(mem[d]) == KernelSlots() && |old(free)| == |free| + 1 + KTABLES
    {
      d := NewDir();
      if d == 0 {
        return;
      }
      NewSpaceStarts(old(mem), old(use), d, data);
      var i := 0;
      while i < 4
        invariant 0 <= i <= 4 && Valid() && NewSpace(old(use), use, d, {}) && Intact(old(mem), old(use), mem)
        invariant ReadsKernel(mem, d, data, i) && Slots(mem[d]) == RowSlots(data, i)
        invariant |old(free)| == |free| + 1 + |Slots(mem[d])|
      {
        var ok := MapKernel(d, i, old(mem), old(use));
        if !ok {
          Abandon(d, old(mem), old(use));
          return 0;
        }
        i := i + 1;
      }
      RowsCover(data);
      KernelTables();
      ReadsKernelAt(mem, d, data);
    }

    /** Gives back a frame taken for a space under construction. */
    method DropHeld(d: Frame, f: Frame, ghost m: Mem, ghost u: Uses)
      requires Valid() && m.Keys == u.Keys && NewSpace(u, use, d, {f}) && use[f].Held? && Intact(m, u, mem)
      modifies this
      ensures Valid() && NewSpace(u, use, d, {}) && Intact(m, u, mem)
    {
      assert NewSpace(u, use[f := Free], d, {}) by { NewSpaceFreed(u, use, d, f); }
      assert Intact(m, u, mem[f := Junk(freelist)]) by { IntactWritten(m, u, mem, use, d, f, Junk(freelist)); }
      FreeHeld(f);
    }

    /** mappages of one page. */
    method MapOne(d: Frame, p: nat, f: Frame, perm: nat) returns (r: Mapped)
      requires Valid() && IsDir(use, d) && p < NPAGES && perm < PGSIZE && Handed(use, p, 1, f)
      modifies this
      ensures Valid() && IsDir(use, d)
      ensures !r.Done? ==> mem == old(mem) && use == old(use) && free == old(free)
      ensures r.NoMemory? <==> Short(old(mem), |old(free)|, d, p)
      ensures r.Remap? <==> !r.NoMemory? && !Vacant(old(mem), d, p, 1)
      ensures r.Done? ==> MappedTo(old(mem), old(use), mem, use, d, p, 1, f, perm)
      ensures r.Done? ==> Paid(old(mem), |old(free)|, mem, |free|, d, p, 0)
    {
      ghost var done, at;
      r, done, at := MapRange(d, p, 1, f, perm);
      if r.Remap? {
        MappedHasTable(old(mem), |old(free)|, d, p);
      } else if r.Done? {
        PaidOne(old(mem), |old(free)|, old(use), mem, |free|, use, d, p, f, perm);
      }
    }

    /** `mappages(d, i, PGSIZE, V2P(mem), flags)`; the page is vacant, so it cannot panic. */
    method MapNew(d: Frame, p: nat, f: Frame, perm: nat, ghost m: Mem, ghost u: Uses) returns (ok: bool)
      requires Valid() && p < USERPAGES && perm < PGSIZE && m.Keys == u.Keys
      requires NewSpace(u, use, d, {f}) && use[f].Held? && Intact(m, u, mem) && Vacant(mem, d, p, 1)
      modifies this
      ensures Valid()
      ensures !ok ==> mem == old(mem) && use == old(use) && Short(old(mem), |old(free)|, d, p)
      ensures ok ==> MappedTo(old(mem), old(use), mem, use, d, p, 1, f, perm) && NewSpace(u, use, d, {}) && Intact(m, u, mem)
      ensures ok ==> Paid(old(mem), |old(free)|, mem, |free|, d, p, 0)
    {
      ghost var n, w := mem, use;
      var r := MapOne(d, p, f, perm);
      assert !r.Remap?;
      ok := r.Done?;
      if ok {
        assert NewSpace(u, use, d, {}) && Intact(m, u, mem) by {
          NewSpaceMapsOne(m, u, n, w, mem, use, d, p, f, perm);
        }
      }
    }

    /** The same, and kfree(mem) if that fails. */
    method MapCopy(d: Frame, p: nat, f: Frame, perm: nat, ghost m: Mem, ghost u: Uses) returns (ok: bool)
      requires Valid() && p < USERPAGES && perm < PGSIZE && m.Keys == u.Keys
      requires NewSpace(u, use, d, {f}) && use[f].Held? && Intact(m, u, mem) && Vacant(mem, d, p, 1)
      modifies this
      ensures Valid() && NewSpace(u, use, d, {}) && Intact(m, u, mem)
      ensures ok ==> MappedTo(old(mem), old(use), mem, use, d, p, 1, f, perm)
      ensures if ok then Paid(old(mem), |old(free)|, mem, |free|, d, p, 0) else Short(old(mem), |old(free)|, d, p)
    {
      ok := MapNew(d, p, f, perm, m, u);
      if !ok {
        DropHeld(d, f, m, u);
      }
    }

    /** kalloc and memmove of page g; 0 if no frame is free. */
    method TakeCopy(d: Frame, g: Frame, ghost m: Mem, ghost u: Uses) returns (f: Frame)
      requires Valid() && g in use && m.Keys == u.Keys && NewSpace(u, use, d, {}) && Intact(m, u, mem)
      modifies this
      ensures Valid()
      ensures f == 0 ==> mem == old(mem) && use == old(use) && old(free) == []
      ensures f != 0 ==> |free| + 1 == |old(free)|
      ensures f != 0 ==> f in use && old(use)[f].Free? && use == old(use)[f := Held] && mem == old(mem)[f := old(mem)[g]]
      ensures f != 0 ==> NewSpace(u, use, d, {f}) && Intact(m, u, mem)
    {
      f := Kalloc();
      if f != 0 {
        assert NewSpace(u, use, d, {f}) by { NewSpaceTakes(u, old(use), d, f); }
        assert Intact(m, u, mem[f := mem[g]]) by { IntactWritten(m, u, mem, use, d, f, mem[g]); }
        FillPage(f, mem[g]);
      }
    }

    /** Copies the page that is at page p of s, with entry pte, to page p of d. */
    method CopyPresent(s: Frame, d: Frame, p: nat, pte: nat, ghost m: Mem, ghost u: Uses) returns (ok: bool)
      requires Valid() && p < USERPAGES && Tied(m, u) && IsDir(u, s) && Lookup(m, s, p) == Some(pte) && Present(pte)
      requires NewSpace(u, use, d, {}) && Intact(m, u, mem) && CopiedBelow(m, u, mem, s, d, data, p)
      modifies this
      ensures Valid() && NewSpace(u, use, d, {}) && Intact(m, u, mem)
      ensures ok ==> CopiedBelow(m, u, mem, s, d, data, p + 1) && Paid(old(mem), |old(free)|, mem, |free|, d, p, 1)
      ensures !ok ==> NoRoom(old(mem), |old(free)|, d, p)
    {
      ghost var n, w, a := mem, use, |free|;
      assert FrameOf(pte) in use by { LookupUser(m, u, s, p); }
      var f := TakeCopy(d, FrameOf(pte), m, u);
      if f == 0 {
        NoneLeft(n, a, d, p);
        return false;
      }
      ghost var b, g := |free|, n[FrameOf(pte)];
      assert Vacant(mem, d, p, 1) by { StillVacant(m, u, n, w, s, d, data, p, f, n[FrameOf(pte)]); }
      ok := MapCopy(d, p, f, Flags(pte), m, u);
      if !ok {
        ShortTaken(n, f, g, b, a, d, p);
      } else {
        PaidTaken(n, f, g, b, a, mem, |free|, d, p);
        assert CopiedBelow(m, u, mem, s, d, data, p + 1) by { CopyMade(m, u, n, w, mem, use, s, d, data, p, f, pte); }
      }
    }

    /** One round of copyuvm. */
    method CopyPage(s: Frame, d: Frame, p: nat, ghost m: Mem, ghost u: Uses, ghost a: nat, ghost hi: nat)
      returns (r: Copying)
      requires Valid() && p < hi <= USERPAGES && Tied(m, u) && IsDir(u, s)
      requires NewSpace(u, use, d, {}) && Intact(m, u, mem) && CopiedBelow(m, u, mem, s, d, data, p)
      requires CopyCharged(m, a, mem, |free|, s, d, p) && Walkable(m, s, p)
      modifies this
      ensures Valid() && NewSpace(u, use, d, {}) && Intact(m, u, mem)
      ensures r.NoTable? <==> !HasTable(m, s, p)
      ensures r.Copied? ==> CopiedBelow(m, u, mem, s, d, data, p + 1) && CopyCharged(m, a, mem, |free|, s, d, p + 1)
      ensures r.Full? ==> CopyRunsOut(m, s, hi, a)
      ensures r.Copied? ==> Walkable(m, s, p + 1)
    {
      PageAt(p);
      var t := Walk(s, p * PGSIZE, false);
      if t == 0 {
        return NoTable;
      }
      var pte := mem[t][p % ENTRIES];
      assert Lookup(m, s, p) == Lookup(mem, s, p) == if Present(pte) then Some(pte) else None by {
        TableEntry(mem, use, t, p % ENTRIES);
      }
      WalkableNext(m, s, p);
      ghost var n, b := mem, |free|;
      if !Present(pte) {
        NothingToCopy(m, u, mem, use, s, d, data, p);
        CopyChargedNext(m, a, n, b, mem, |free|, s, d, p);
        return Copied;
      }
      var ok := CopyPresent(s, d, p, pte, m, u);
      if ok {
        CopyChargedNext(m, a, n, b, mem, |free|, s, d, p);
      } else {
        CopyShort(m, a, n, b, s, d, p, hi);
      }
      r := if ok then Copied else Full;
    }

    /** The loop of copyuvm, over the pages below hi. */
    method CopyPages(s: Frame, d: Frame, hi: nat, ghost m: Mem, ghost u: Uses, ghost a: nat) returns (r: Copying)
      requires Valid() && hi <= USERPAGES && Tied(m, u) && IsDir(u, s)
      requires NewSpace(u, use, d, {}) && Intact(m, u, mem) && CopiedBelow(m, u, mem, s, d, data, 0)
      requires CopyCharged(m, a, mem, |free|, s, d, 0)
      modifies this
      ensures Valid() && NewSpace(u, use, d, {}) && Intact(m, u, mem)
      ensures r.Full? <==> CopyRunsOut(m, s, hi, a)
      ensures r.Copied? ==> Walkable(m, s, hi) && CopiedBelow(m, u, mem, s, d, data, hi)
      ensures r.NoTable? ==> !Walkable(m, s, hi)
    {
      var p := 0;
      while p < hi
        invariant 0 <= p <= hi && Valid() && NewSpace(u, use, d, {}) && Intact(m, u, mem)
        invariant CopiedBelow(m, u, mem, s, d, data, p) && Walkable(m, s, p)
        invariant CopyCharged(m, a, mem, |free|, s, d, p)
      {
        r := CopyPage(s, d, p, m, u, a, hi);
        if r.NoTable? {
          CopySuffices(m, a, s, p, hi);
        }
        if !r.Copied? {
          return;
        }
        p := p + 1;
      }
      CopySuffices(m, a, s, p, p);
      r := Copied;
    }

    /** copyuvm: the new space holds copies of the pages of s below sz and the kernel's pages. If there
        are too few free frames nothing is taken and 0 is returned; a missing page table of s is a panic. */
    method Copyuvm(s: Frame, sz: nat) returns (d: Frame, panic: bool)
      requires Valid() && IsDir(use, s) && sz <= KERNBASE
      modifies this
      ensures Valid() && Intact(old(mem), old(use), mem)
      ensures d == 0 <==> CopyRunsOut(old(mem), s, PagesFor(sz), |old(free)|)
      ensures panic <==> d != 0 && !Walkable(old(mem), s, PagesFor(sz))
      ensures d == 0 ==> use == old(use)
      ensures !panic && d != 0 ==>
                NewSpace(old(use), use, d, {}) && CopiedBelow(old(mem), old(use), mem, s, d, data, PagesFor(sz))
      ensures !panic && d != 0 ==> forall x | PagesFor(sz) <= x < NPAGES :: KernelAt(mem, d, data, x)
    {
      panic := false;
      d := Setupkvm();
      if d == 0 {
        ShortOf(old(mem), |old(free)|, s, 0, PagesFor(sz));
        return;
      }
      var r := CopyPages(s, d, PagesFor(sz), old(mem), old(use), |old(free)|);
      if r.NoTable? {
        return d, true;
      }
      if r.Full? {
        Abandon(d, old(mem), old(use));
        return 0, false;
      }
      CopiedKernelAt(old(mem), old(use), mem, s, d, data, PagesFor(sz));
    }

    /** kalloc and memset; 0 if no frame is free. */
    method TakeCleared() returns (f: Frame)
      requires Valid()
      modifies this
      ensures Valid()
      ensures f == 0 ==> mem == old(mem) && use == old(use) && old(free) == []
      ensures f != 0 ==> f in use && old(use)[f].Free? && use == old(use)[f := Held] && mem == old(mem)[f := Cleared()]
      ensures f != 0 ==> |free| + 1 == |old(free)|
    {
      f := Kalloc();
      if f != 0 {
        FillPage(f, Cleared());
      }
    }

    /** kalloc, memset and mappages for page p. If it fails, f is the frame it has in hand, or 0. */
    method GrowOne(d: Frame, p: nat, ghost lo: nat, ghost m: Mem, ghost u: Uses) returns (r: Mapped, f: Frame)
      requires Valid() && IsDir(u, d) && IsDir(use, d) && m.Keys == u.Keys && lo <= p < USERPAGES
      requires Grown(m, u, mem, use, d, lo, p)
      modifies this
      ensures Valid() && IsDir(use, d)
      ensures r.Done? ==> Grown(m, u, mem, use, d, lo, p + 1) && Paid(old(mem), |old(free)|, mem, |free|, d, p, 1)
      ensures r.NoMemory? <==> NoRoom(old(mem), |old(free)|, d, p)
      ensures r.Remap? <==> !r.NoMemory? && !Vacant(m, d, p, 1)
      ensures r.NoMemory? && f == 0 ==> mem == old(mem) && use == old(use)
      ensures r.NoMemory? && f != 0 ==>
                f in use && old(use)[f].Free? && use == old(use)[f := Held] && mem == old(mem)[f := Cleared()]
    {
      ghost var n, w, a := mem, use, |free|;
      f := TakeCleared();
      if f == 0 {
        NoneLeft(n, a, d, p);
        return NoMemory, 0;
      }
      ghost var b := |free|;
      assert Vacant(m, d, p, 1) <==> Vacant(mem, d, p, 1) by {
        GrownVacant(m, u, n, w, d, lo, p, f, Cleared());
      }
      ShortTaken(n, f, Cleared(), b, a, d, p);
      r := MapOne(d, p, f, PTE_W + PTE_U);
      if r.Done? {
        assert Grown(m, u, mem, use, d, lo, p + 1) by { GrownNext(m, u, n, w, mem, use, d, lo, p, f); }
        PaidTaken(n, f, Cleared(), b, a, mem, |free|, d, p);
      }
    }

    /** The failure paths of allocuvm: deallocuvm, then kfree of the frame in hand, if any. */
    method Rollback(d: Frame, oldsz: nat, newsz: nat, f: Frame, ghost p: nat, ghost m: Mem, ghost u: Uses, ghost n: Mem, ghost w: Uses)
      requires Valid() && IsDir(use, d) && m.Keys == u.Keys && Tied(n, w) && IsDir(u, d) && IsDir(w, d)
      requires oldsz < newsz < KERNBASE && PagesFor(oldsz) <= p <= PagesFor(newsz)
      requires Grown(m, u, n, w, d, PagesFor(oldsz), p)
      requires f == 0 ==> mem == n && use == w
      requires f != 0 ==> f in w && w[f].Free? && use == w[f := Held] && mem == n[f := Cleared()]
      modifies this
      ensures Valid() && TakenBack(m, u, mem, use, d, PagesFor(oldsz), PagesFor(newsz))
    {
      ghost var lo, hi := PagesFor(oldsz), PagesFor(newsz);
      var _ := Deallocuvm(d, newsz, oldsz);
      if f != 0 {
        ghost var q, y, list := mem, use, freelist;
        assert y[f].Held? && Emptied(n, w, q[f := Junk(list)], y[f := Free], d, lo, hi) by {
          HeldFreed(n, w, Cleared(), q, y, d, lo, hi, f, Junk(list));
        }
        FreeHeld(f);
      }
      RolledBack(m, u, n, w, mem, use, d, lo, p, hi);
    }

    /** One round of allocuvm's loop, with a frames free before the loop. */
    method GrowPage(d: Frame, oldsz: nat, newsz: nat, p: nat, ghost lo: nat, ghost hi: nat, ghost m: Mem, ghost u: Uses, ghost a: nat)
      returns (r: Mapped)
      requires Valid() && IsDir(u, d) && IsDir(use, d) && m.Keys == u.Keys
      requires oldsz < newsz < KERNBASE && lo == PagesFor(oldsz) && hi == PagesFor(newsz) && lo <= p < hi <= USERPAGES
      requires Grown(m, u, mem, use, d, lo, p) && GrowCharged(m, a, mem, |free|, d, lo, p)
      modifies this
      ensures Valid() && IsDir(use, d)
      ensures r.Done? ==> Grown(m, u, mem, use, d, lo, p + 1) && GrowCharged(m, a, mem, |free|, d, lo, p + 1)
      ensures r.NoMemory? ==> GrowRunsOut(m, d, lo, hi, a) && TakenBack(m, u, mem, use, d, lo, hi)
      ensures r.Remap? ==> !GrowRunsOut(m, d, lo, hi, a) && !Vacant(m, d, lo, hi - lo)
    {
      ghost var n, w := mem, use;
      var f;
      r, f := GrowOne(d, p, lo, m, u);
      GrowOutcome(m, a, n, |old(free)|, mem, |free|, d, lo, p, hi, r);
      if r.NoMemory? {
        Rollback(d, oldsz, newsz, f, p, m, u, n, w);
      }
    }

    /** The loop of allocuvm, over pages [lo, hi) of d. */
    method GrowPages(d: Frame, oldsz: nat, newsz: nat, lo: nat, hi: nat) returns (r: Mapped)
      requires Valid() && IsDir(use, d) && oldsz <= newsz < KERNBASE && lo == PagesFor(oldsz) && hi == PagesFor(newsz)
      modifies this
      ensures Valid() && lo <= hi
      ensures r.Done? ==> Grown(old(mem), old(use), mem, use, d, lo, hi) && Vacant(old(mem), d, lo, hi - lo)
      ensures r.NoMemory? <==> GrowRunsOut(old(mem), d, lo, hi, |old(free)|)
      ensures r.NoMemory? ==> TakenBack(old(mem), old(use), mem, use, d, lo, hi)
      ensures r.Remap? ==> !Vacant(old(mem), d, lo, hi - lo)
    {
      var p := lo;
      GrowChargedNothing(mem, |free|, d, lo);
      while p < hi
        invariant lo <= p <= hi <= USERPAGES && Valid() && IsDir(use, d)
        invariant Grown(old(mem), old(use), mem, use, d, lo, p)
        invariant GrowCharged(old(mem), |old(free)|, mem, |free|, d, lo, p)
      {
        r := GrowPage(d, oldsz, newsz, p, lo, hi, old(mem), old(use), |old(free)|);
        if !r.Done? {
          return;
        }
        p := p + 1;
      }
      GrowEnds(old(mem), |old(free)|, mem, |free|, d, lo, hi);
      r := Done;
    }

    /** allocuvm: pages for [oldsz, newsz), all fresh; if memory runs out they are taken back and 0
        is returned; a page that is mapped already is a panic. */
    method Allocuvm(d: Frame, oldsz: nat, newsz: nat) returns (sz: nat, r: Growth)
      requires Valid() && IsDir(use, d)
      modifies this
      ensures Valid()
      ensures r.Refused? <==> newsz >= KERNBASE
      ensures r.Refused? ==> sz == 0 && mem == old(mem) && use == old(use)
      ensures newsz < oldsz && newsz < KERNBASE ==> r.Resized? && sz == oldsz && mem == old(mem) && use == old(use)
      ensures oldsz <= newsz < KERNBASE ==>
                var lo, hi := PagesFor(oldsz), PagesFor(newsz);
                && (r.OutOfMemory? <==> GrowRunsOut(old(mem), d, lo, hi, |old(free)|))
                && match r
                   case Resized => sz == newsz && Grown(old(mem), old(use), mem, use, d, lo, hi) && Vacant(old(mem), d, lo, hi - lo)
                   case OutOfMemory => sz == 0 && TakenBack(old(mem), old(use), mem, use, d, lo, hi)
                   case Panic => lo < hi && !Vacant(old(mem), d, lo, hi - lo)
                   case Refused => false
    {
      if newsz >= KERNBASE {
        return 0, Refused;
      }
      if newsz < oldsz {
        return oldsz, Resized;
      }
      var a := GrowPages(d, oldsz, newsz, PagesFor(oldsz), PagesFor(newsz));
      if a.NoMemory? {
        return 0, OutOfMemory;
      }
      if a.Remap? {
        return 0, Panic;
      }
      return newsz, Resized;
    }
  }
}
