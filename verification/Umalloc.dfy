/** umalloc.c: the storage allocator of section 8.7 of The C Programming Language, 2nd edition. */
module Umalloc {
  import opened Blocks
  import opened FreeRing
  import opened FirstFit

  /** sizeof(Header) */
  const HEADER: nat := 8

  /** Unit u lies in a block that is handed out. */
  ghost predicate LiveUnit(live: Mem, u: int) {
    exists a :: a in live && a <= u < a + live[a]
  }

  /** Handed-out blocks keep their size in their header and do not overlap. */
  ghost predicate LiveOk(base: int, size: Mem, live: Mem) {
    && (forall a | a in live :: a > base && live[a] > 0 && a in size && size[a] == live[a])
    && (forall a, b | a in live && b in live && a < b :: a + live[a] <= b)
  }

  /** Every unit obtained from sbrk is free or handed out, none is both, and no other unit is either. */
  ghost predicate Partition(ring: seq<int>, size: Mem, live: Mem, granted: set<int>)
    requires Sized(ring, size)
  {
    && (forall u :: FreeUnit(ring, size, u) ==> u in granted && !LiveUnit(live, u))
    && (forall u :: LiveUnit(live, u) ==> u in granted)
    && (forall u | u in granted :: FreeUnit(ring, size, u) || LiveUnit(live, u))
  }

  ghost predicate HeapOk(base: int, ring: seq<int>, ptr: Mem, size: Mem, live: Mem, granted: set<int>) {
    && IsRing(base, ring, ptr, size) && Coalesced(ring, size)
    && LiveOk(base, size, live) && Partition(ring, size, live, granted)
    && (forall u | u in granted :: u > base)
  }

  /** A live block lies wholly between two neighbours of the free list. */
  lemma LiveBetween(base: int, ring: seq<int>, ptr: Mem, size: Mem, live: Mem, granted: set<int>, bp: int, t: nat)
    requires HeapOk(base, ring, ptr, size, live, granted) && bp in live
    requires t < |ring| && ring[t] < bp && (t + 1 < |ring| ==> bp < ring[t + 1])
    ensures Between(ring, size, bp, live[bp], t)
  {
    assert LiveUnit(live, bp);
    forall i | 0 <= i < |ring|
      ensures i <= t ==> ring[i] + size[ring[i]] <= bp
      ensures i > t ==> bp + live[bp] <= ring[i]
    {
      NotFree(ring, size, i, bp);
      if i > t {
        assert FreeUnit(ring, size, ring[i]);
        NotLive(live, bp, ring[i]);
      }
    }
  }

  lemma NotFree(ring: seq<int>, size: Mem, i: int, u: int)
    requires Sized(ring, size) && 0 <= i < |ring| && !FreeUnit(ring, size, u)
    ensures !(ring[i] <= u < ring[i] + size[ring[i]])
  {
  }

  lemma NotLive(live: Mem, a: int, u: int)
    requires a in live && !LiveUnit(live, u)
    ensures !(a <= u < a + live[a])
  {
  }

  // ---- what free does to the list ----

  /** bp has been put after entry t of (ring, ptr, size), giving (r, q, z): a ring with bp's units
      added, in which only neighbours at the places lo to hi - 1 may touch. */
  ghost predicate PutIn(base: int, ring: seq<int>, size: Mem, bp: int, t: nat, r: seq<int>, q: Mem, z: Mem, hi: int) {
    && IsRing(base, r, q, z) && CoalescedBut(r, z, t, hi) && t + 1 < |r| && r[t + 1] == bp
    && Sized(ring, size) && bp in size && t < |ring| && r[t] == ring[t]
    && (forall u :: FreeUnit(r, z, u) <==> FreeUnit(ring, size, u) || bp <= u < bp + size[bp])
  }

  lemma PutAfter(base: int, ring: seq<int>, ptr: Mem, size: Mem, bp: int, t: nat)
    requires IsRing(base, ring, ptr, size) && Coalesced(ring, size) && bp in size && Between(ring, size, bp, size[bp], t)
    ensures PutIn(base, ring, size, bp, t, Insert(ring, t, bp), ptr[bp := ptr[ring[t]]][ring[t] := bp], size, t + 2)
  {
    Inserted(base, ring, ptr, size, bp, t);
  }

  /** `bp->s.size += p->s.ptr->s.size; bp->s.ptr = p->s.ptr->s.ptr` */
  lemma JoinNext(base: int, ring: seq<int>, size: Mem, bp: int, t: nat, r: seq<int>, q: Mem, z: Mem)
    requires PutIn(base, ring, size, bp, t, r, q, z, t + 2) && Touches(r, z, t + 1)
    ensures PutIn(base, ring, size, bp, t, Remove(r, t + 2), q[bp := q[r[t + 2]]], z[bp := z[bp] + z[r[t + 2]]], t + 1)
  {
    var r', q', z' := Remove(r, t + 2), q[bp := q[r[t + 2]]], z[bp := z[bp] + z[r[t + 2]]];
    MergedNext(base, bp, t + 2, r, q, z, r', q', z');
    SameUnitsPut(ring, size, bp, r, z, r', z');
  }

  lemma MergedNext(base: int, bp: int, k: nat, r: seq<int>, q: Mem, z: Mem, r': seq<int>, q': Mem, z': Mem)
    requires IsRing(base, r, q, z) && 1 < k < |r| && r[k - 1] == bp && Touches(r, z, k - 1) && CoalescedBut(r, z, k - 2, k)
    requires r' == Remove(r, k) && q' == q[bp := q[r[k]]] && z' == z[bp := z[bp] + z[r[k]]]
    ensures IsRing(base, r', q', z') && CoalescedBut(r', z', k - 2, k - 1) && SameUnits(r', z', r, z)
  {
    Merged(base, r, q, z, k);
    MergedCoalesced(r, z, k, k - 2);
  }

  lemma SameUnitsPut(ring: seq<int>, size: Mem, bp: int, r: seq<int>, z: Mem, r': seq<int>, z': Mem)
    requires Sized(ring, size) && Sized(r, z) && Sized(r', z') && SameUnits(r', z', r, z) && bp in size
    requires forall u :: FreeUnit(r, z, u) <==> FreeUnit(ring, size, u) || bp <= u < bp + size[bp]
    ensures forall u :: FreeUnit(r', z', u) <==> FreeUnit(ring, size, u) || bp <= u < bp + size[bp]
  {
  }

  /** `p->s.size += bp->s.size; p->s.ptr = bp->s.ptr` */
  lemma JoinPrev(base: int, ring: seq<int>, size: Mem, bp: int, t: nat, r: seq<int>, q: Mem, z: Mem)
    requires PutIn(base, ring, size, bp, t, r, q, z, t + 1) && Touches(r, z, t)
    ensures var p := ring[t]; var z' := z[p := z[p] + z[bp]];
            && IsRing(base, Remove(r, t + 1), q[p := q[bp]], z') && Coalesced(Remove(r, t + 1), z') && p in Remove(r, t + 1)
            && SameUnits(Remove(r, t + 1), z', r, z)
  {
    assert t >= 1;
    Merged(base, r, q, z, t + 1);
    MergedCoalesced(r, z, t + 1, t);
    assert Remove(r, t + 1)[t] == ring[t];
  }

  class Heap {
    /** The address of the static header `base`, below everything sbrk returns. */
    const base: int
    /** The `s.ptr` and `s.size` fields of headers, by address. */
    var ptr: Mem
    var size: Mem
    var freep: int
    ghost var ring: seq<int>
    ghost var live: Mem
    ghost var granted: set<int>

    ghost predicate Valid()
      reads this
    {
      HeapOk(base, ring, ptr, size, live, granted) && freep in ring
    }

    /** The first call of malloc makes base a list of one empty block. */
    constructor (base: int)
      ensures Valid() && this.base == base && live == map[] && granted == {} && ring == [base]
    {
      this.base := base;
      ptr, size, freep := map[base := base], map[base := 0], base;
      ring, live, granted := [base], map[], {};
    }

    /** free's search, from wherever freep is: the entry after which bp belongs. */
    method Search(bp: int) returns (p: int, ghost t: nat)
      requires Valid() && bp > base && bp !in ring
      ensures t < |ring| && p == ring[t] < bp && (t + 1 < |ring| ==> bp < ring[t + 1])
    {
      t := Position(ring, bp);
      p := freep;
      ghost var k :| 0 <= k < |ring| && ring[k] == p;
      while !(bp > p && bp < ptr[p])
        invariant 0 <= k < |ring| && p == ring[k]
        decreases if k <= t then t - k else |ring| - k + t
      {
        assert ptr[p] == After(ring, k);
        if p >= ptr[p] && (bp > p || bp < ptr[p]) { break; }
        p := ptr[p];
        k := if k + 1 == |ring| then 0 else k + 1;
      }
      assert ptr[p] == After(ring, k);
      assert k == t;
    }

    /** free's first half: bp points at what follows p, or takes it over if they touch. */
    method LinkNext(bp: int, p: int, ghost t: nat) returns (ghost r: seq<int>)
      requires IsRing(base, ring, ptr, size) && Coalesced(ring, size) && bp in size && Between(ring, size, bp, size[bp], t)
      requires p == ring[t]
      modifies `ptr, `size
      ensures bp in ptr && PutIn(base, ring, old(size), bp, t, r, ptr[p := bp], size, t + 1)
      ensures forall a | a in old(size) && a != bp :: a in size && size[a] == old(size)[a]
    {
      NextIn(base, ring, ptr, size, t);
      var next := ptr[p];
      var q, z := ptr[bp := next], size;
      if bp + size[bp] == next {
        r := Remove(Insert(ring, t, bp), t + 2);
        q, z := ptr[bp := ptr[next]], size[bp := size[bp] + size[next]];
        assert PutIn(base, ring, size, bp, t, r, q[p := bp], z, t + 1) by {
          NextJoined(base, ring, ptr, size, bp, t, p, next, r);
        }
      } else {
        r := Insert(ring, t, bp);
        assert PutIn(base, ring, size, bp, t, r, q[p := bp], z, t + 1) by {
          NextApart(base, ring, ptr, size, bp, t, p, next, r);
        }
      }
      ptr, size := q, z;
    }

    /** free's second half: p points at bp, or takes it over if they touch. */
    method LinkPrev(bp: int, p: int, ghost t: nat, ghost was: Mem, ghost r: seq<int>) returns (ghost r': seq<int>)
      requires bp in ptr && t < |ring| && p == ring[t] && PutIn(base, ring, was, bp, t, r, ptr[p := bp], size, t + 1)
      modifies `ptr, `size
      ensures Rejoined(base, ring, was, bp, p, r', ptr, size)
      ensures forall a | a in old(size) && a != p :: a in size && size[a] == old(size)[a]
    {
      if p + size[p] == bp {
        r' := Remove(r, t + 1);
        PrevJoined(base, ring, was, bp, t, r, ptr, size, p, r');
        size, ptr := size[p := size[p] + size[bp]], ptr[p := ptr[bp]];
      } else {
        r' := r;
        PrevApart(base, ring, was, bp, t, r, ptr, size, p);
        ptr := ptr[p := bp];
      }
    }

    /** free: bp's units become free, merged with the free blocks they touch. */
    method Free(bp: int)
      requires Valid() && bp in live
      modifies this
      ensures Valid() && live == old(live) - {bp} && granted == old(granted) && EntryBefore(old(ring), bp, freep)
    {
      assert bp !in ring by { LiveNotInRing(base, ring, ptr, size, live, granted, bp); }
      var p;
      ghost var t, r;
      p, t := Search(bp);
      assert Between(ring, size, bp, live[bp], t) by { LiveBetween(base, ring, ptr, size, live, granted, bp, t); }
      assert EntryBefore(ring, bp, p) by { LastBelow(ring, bp, t); }
      ghost var ptr0, size0 := ptr, size;
      r := LinkNext(bp, p, t);
      ghost var size1 := size;
      r := LinkPrev(bp, p, t, size0, r);
      Freed(base, ring, ptr0, size0, live, granted, bp, t, size1, r, ptr, size);
      freep, ring, live := p, r, live - {bp};
    }

    /** The header morecore writes on the units sbrk gave it. */
    method Granted(hp: int, nu: nat)
      requires Valid() && nu > 0 && hp > base
      requires forall u | hp <= u < hp + nu :: u !in granted
      modifies `size, `live, `granted
      ensures Valid() && hp !in old(live) && live == old(live)[hp := nu]
      ensures granted == old(granted) + Units(hp, nu)
    {
      GrantedHeap(base, ring, ptr, size, live, granted, hp, nu);
      size := size[hp := nu];
      live, granted := live[hp := nu], granted + Units(hp, nu);
    }

    /** morecore: ask sbrk for at least MINCORE units and free them into the list. */
    method Morecore(nunits: nat, sbrk: Sbrk) returns (ok: bool, p: int)
      requires Valid() && nunits > 0 && Unused(base, granted, sbrk, nunits)
      modifies this
      ensures Valid() && live == old(live) && ok == sbrk.Grant?
      ensures ok ==> p == freep && granted == old(granted) + Units(sbrk.at, Core(nunits)) && HasFit(ring, size, nunits)
      ensures ok && !HasFit(old(ring), old(size), nunits) ==>
                OnlyMade(old(ring), old(size), sbrk.at, Core(nunits), nunits, ring, size)
      ensures !ok ==> granted == old(granted) && ring == old(ring) && ptr == old(ptr) && size == old(size)
    {
      var nu := if nunits < MINCORE then MINCORE else nunits;
      if sbrk.Failed? { return false, 0; }
      var hp := sbrk.at;
      Granted(hp, nu);
      LiveUnits(base, size, live, hp);
      Free(hp);
      assert live == old(live);
      BigBlock(base, ring, ptr, size, live, granted, hp, nu);
      CoreMade(base, old(ring), old(ptr), old(size), live, old(granted), ring, ptr, size, hp, nu, nunits);
      return true, freep;
    }

    /** malloc's exact fit: block p leaves the list. */
    method TakeAll(prevp: int, p: int, ghost k: nat)
      requires Valid() && 0 < k < |ring| && p == ring[k] && prevp == ring[k - 1]
      modifies this
      ensures Valid() && granted == old(granted) && p !in old(live) && live == old(live)[p := old(size)[p]] && p > base
      ensures freep == prevp
    {
      CarveAll(base, ring, ptr, size, live, granted, k);
      ring, live := Remove(ring, k), live[p := size[p]];
      ptr, freep := ptr[prevp := ptr[p]], prevp;
    }

    /** malloc's larger block: its last nunits become a block of their own. */
    method TakeTail(prevp: int, p: int, nunits: nat, ghost k: nat) returns (q: int)
      requires Valid() && 0 < k < |ring| && p == ring[k] && prevp == ring[k - 1] && 0 < nunits < size[p]
      modifies this
      ensures Valid() && granted == old(granted) && q !in old(live) && live == old(live)[q := nunits] && q > base
      ensures freep == prevp && q == p + old(size)[p] - nunits
    {
      q := p + size[p] - nunits;
      var z := size[p := size[p] - nunits][q := nunits];
      ghost var l := live[q := nunits];
      TailCarved(base, ring, ptr, size, live, granted, k, nunits, p, q, z, l);
      size, live, freep := z, l, prevp;
    }

    method Take(prevp: int, p: int, nunits: nat, ghost k: nat) returns (q: int)
      requires Valid() && 0 < k < |ring| && p == ring[k] && prevp == ring[k - 1] && 0 < nunits <= size[p]
      modifies this
      ensures Valid() && granted == old(granted) && q !in old(live) && live == old(live)[q := nunits] && q > base
      ensures freep == prevp && q == p + old(size)[p] - nunits
    {
      if size[p] == nunits {
        TakeAll(prevp, p, k);
        q := p;
      } else {
        q := TakeTail(prevp, p, nunits, k);
      }
    }

    /** Where malloc's scan stands: it has passed v entries after freep, none of nunits; once it
        has asked for more core there is a block that fits. */
    ghost predicate Scanning(nunits: nat, k: nat, v: int, prevp: int, p: int, asked: bool)
      reads this
    {
      Valid() && Scanned(ring, size, freep, nunits, k, v, prevp, p) && (asked ==> HasFit(ring, size, nunits))
    }

    /** malloc's `if(p == freep) p = morecore(nunits)`, and the loop's advance. */
    method Advance(nunits: nat, sbrk: Sbrk, prevp: int, p: int, ghost k: nat, ghost v: int, ghost asked: bool)
      returns (ok: bool, prevp': int, p': int, ghost k': nat, ghost v': int)
      requires Scanning(nunits, k, v, prevp, p, asked) && size[p] < nunits
      requires !asked ==> Unused(base, granted, sbrk, nunits)
      modifies this
      ensures Valid() && live == old(live)
      ensures p != old(freep) ==> ok && v' == v + 1 && ring == old(ring) && size == old(size) && granted == old(granted)
      ensures p == old(freep) ==> !asked && ok == sbrk.Grant? && !HasFit(old(ring), old(size), nunits)
      ensures p == old(freep) && ok ==> v' == 0 && granted == old(granted) + Units(sbrk.at, Core(nunits))
      ensures p == old(freep) && ok ==> OnlyMade(old(ring), old(size), sbrk.at, Core(nunits), nunits, ring, size)
      ensures p != old(freep) ==> freep == old(freep)
      ensures ok ==> Scanning(nunits, k', v', prevp', p', asked || p == old(freep))
      ensures !ok ==> ring == old(ring) && granted == old(granted)
    {
      ok, prevp', k', v' := true, p, k, v + 1;
      if p == freep {
        NothingFits(ring, size, freep, nunits, k, v, prevp, p);
        ok, prevp' := Morecore(nunits, sbrk);
        if !ok { return false, 0, 0, 0, 0; }
        k', v' := IndexOf(ring, freep), 0;
        ScanStart(ring, ptr, size, nunits, k');
      } else {
        ScanNext(ring, ptr, size, freep, nunits, k, v, prevp, p);
      }
      p' := ptr[prevp'];
    }

    /** The scan is at a block that fits. */
    method TakeFound(prevp: int, p: int, nunits: nat, ghost k: nat, ghost v: int, ghost asked: bool) returns (q: int)
      requires Scanning(nunits, k, v, prevp, p, asked) && 0 < nunits <= size[p]
      modifies this
      ensures Valid() && granted == old(granted) && q !in old(live) && live == old(live)[q := nunits] && q > base
      ensures HasFit(old(ring), old(size), nunits) && Taken(old(ring), old(size), old(freep), nunits, p, q, freep)
    {
      ScanFirst(ring, size, freep, nunits, k, v, prevp, p);
      PrevOf(ring, ptr, size, freep, nunits, k, v, prevp, p);
      assert HasFit(ring, size, nunits);
      q := Take(prevp, p, nunits, Step(k, v + 1, |ring|));
    }

    /** malloc. It calls morecore at most once: what morecore adds fits, and the scan meets it
        before it is back at freep. */
    method Malloc(nbytes: nat, sbrk: Sbrk) returns (ok: bool, q: int)
      requires Valid() && nbytes < UINT && Unused(base, granted, sbrk, NUnits(nbytes))
      modifies this
      ensures Valid()
      ensures ok <==> HasFit(old(ring), old(size), NUnits(nbytes)) || sbrk.Grant?
      ensures ok ==> q !in old(live) && q > base && live == old(live)[q := NUnits(nbytes)]
      ensures HasFit(old(ring), old(size), NUnits(nbytes)) || !ok ==> granted == old(granted)
      ensures ok && !HasFit(old(ring), old(size), NUnits(nbytes)) ==>
                granted == old(granted) + Units(sbrk.at, Core(NUnits(nbytes)))
      ensures !ok ==> live == old(live) && ring == old(ring)
      ensures HasFit(old(ring), old(size), NUnits(nbytes)) ==>
                exists p :: Taken(old(ring), old(size), old(freep), NUnits(nbytes), p, q, freep)
      ensures ok && !HasFit(old(ring), old(size), NUnits(nbytes)) ==>
                exists p :: Made(old(ring), old(size), sbrk.at, Core(NUnits(nbytes)), NUnits(nbytes), p, q, freep)
    {
      var nunits := NUnits(nbytes);
      var prevp := freep;
      var p := ptr[prevp];
      ghost var asked := false;
      ghost var k := IndexOf(ring, freep);
      ghost var v := 0;
      ScanStart(ring, ptr, size, nunits, k);
      while true
        invariant Scanning(nunits, k, v, prevp, p, asked) && live == old(live)
        invariant asked ==> sbrk.Grant? && !HasFit(old(ring), old(size), nunits)
        invariant asked ==> granted == old(granted) + Units(sbrk.at, Core(nunits))
        invariant asked ==> OnlyMade(old(ring), old(size), sbrk.at, Core(nunits), nunits, ring, size)
        invariant !asked ==> granted == old(granted) && ring == old(ring) && size == old(size) && freep == old(freep)
        decreases if asked then 0 else 1, |ring| - v
      {
        if size[p] >= nunits {
          ghost var r, z := ring, size;
          q := TakeFound(prevp, p, nunits, k, v, asked);
          if asked { MadeFound(old(ring), old(size), sbrk.at, Core(nunits), nunits, r, z, p, q, freep); }
          return true, q;
        }
        ghost var again := asked || p == freep;
        ok, prevp, p, k, v := Advance(nunits, sbrk, prevp, p, k, v, asked);
        if !ok { return false, 0; }
        asked := again;
      }
    }
  }

  /** `(nbytes + sizeof(Header) - 1)/sizeof(Header) + 1`, in 32-bit arithmetic. */
  function NUnits(nbytes: nat): (n: nat)
    ensures n > 0
  {
    (nbytes + HEADER - 1) % UINT / HEADER + 1
  }

  /** A block's units after its header hold nbytes if and only if the 32-bit sum did not overflow. */
  lemma NUnitsSuffice(nbytes: nat)
    requires nbytes < UINT
    ensures (NUnits(nbytes) - 1) * HEADER >= nbytes <==> nbytes + HEADER - 1 < UINT
    ensures (NUnits(nbytes) - 1) * HEADER < nbytes + HEADER
  {
  }

  /** `malloc(0xffffffff)` asks for a header and no bytes. */
  lemma NUnitsOverflow()
    ensures NUnits(0xffff_ffff) == 1
  {
  }

  ghost function IndexOf(ring: seq<int>, a: int): (k: nat)
    requires a in ring
    ensures k < |ring| && ring[k] == a
  {
    var k :| 0 <= k < |ring| && ring[k] == a;
    k
  }

  /** The entry v steps after entry k, going round once at most. */
  function Step(k: nat, v: int, n: nat): (j: int)
    requires k < n && 0 <= v <= n
    ensures 0 <= j < n
  {
    if k + v < n then k + v else k + v - n
  }

  /** malloc's scan has passed v entries after freep, entry k, and none of them has nunits; it is
      at p, just after prevp. */
  ghost predicate Scanned(ring: seq<int>, size: Mem, freep: int, nunits: nat, k: nat, v: int, prevp: int, p: int) {
    && k < |ring| && ring[k] == freep && 0 <= v < |ring|
    && prevp == ring[Step(k, v, |ring|)] && p == ring[Step(k, v + 1, |ring|)]
    && (forall i | 0 <= i < |ring| :: ring[i] in size)
    && (forall i | 1 <= i <= v :: size[ring[Step(k, i, |ring|)]] < nunits)
  }

  lemma ScanStart(ring: seq<int>, ptr: Mem, size: Mem, nunits: nat, k: nat)
    requires Links(ring, ptr) && Sized(ring, size) && k < |ring|
    ensures Scanned(ring, size, ring[k], nunits, k, 0, ring[k], ptr[ring[k]])
  {
    assert ptr[ring[k]] == After(ring, k);
  }

  lemma ScanNext(ring: seq<int>, ptr: Mem, size: Mem, freep: int, nunits: nat, k: nat, v: int, prevp: int, p: int)
    requires Scanned(ring, size, freep, nunits, k, v, prevp, p) && Links(ring, ptr) && p != freep && size[p] < nunits
    ensures Scanned(ring, size, freep, nunits, k, v + 1, p, ptr[p])
  {
    assert ptr[p] == After(ring, Step(k, v + 1, |ring|));
  }

  /** A block with units is not base, so prevp is the entry just before it. */
  lemma PrevOf(ring: seq<int>, ptr: Mem, size: Mem, freep: int, nunits: nat, k: nat, v: int, prevp: int, p: int)
    requires Scanned(ring, size, freep, nunits, k, v, prevp, p) && Sized(ring, size) && 0 < nunits <= size[p]
    ensures var j := Step(k, v + 1, |ring|); 0 < j && p == ring[j] && prevp == ring[j - 1]
  {
  }

  /** The block the scan is at is the first that fits. */
  lemma ScanFirst(ring: seq<int>, size: Mem, freep: int, nunits: nat, k: nat, v: int, prevp: int, p: int)
    requires Scanned(ring, size, freep, nunits, k, v, prevp, p) && Sized(ring, size) && Increasing(ring)
    requires 0 < nunits <= size[p]
    ensures First(ring, size, freep, nunits, p) && EntryBefore(ring, p, prevp)
  {
    var j := Step(k, v + 1, |ring|);
    assert ring[j] == p && 0 < j;
    forall a | a in ring && size[a] >= nunits
      ensures if p > freep then a <= freep || p <= a else p <= a <= freep
    {
      var i :| 0 <= i < |ring| && ring[i] == a;
      var w := if i > k then i - k else i - k + |ring|;
      assert Step(k, w, |ring|) == i && w > v;
    }
  }

  /** After morecore the list has its units and no other new ones. */
  lemma CoreMade(base: int, ring: seq<int>, ptr: Mem, size: Mem, live: Mem, granted: set<int>,
                 r: seq<int>, q: Mem, z: Mem, hp: int, nu: nat, n: nat)
    requires HeapOk(base, ring, ptr, size, live, granted) && HeapOk(base, r, q, z, live, granted + Units(hp, nu))
    requires hp > base && nu > 0 && n > 0 && forall u | hp <= u < hp + nu :: u !in granted
    ensures !HasFit(ring, size, n) ==> OnlyMade(ring, size, hp, nu, n, r, z)
  {
    if !HasFit(ring, size, n) {
      forall a | a in ring ensures size[a] < n { var i :| 0 <= i < |ring| && ring[i] == a; }
      assert forall u | hp <= u < hp + nu :: !LiveUnit(live, u);
      assert Grown(base, ring, ptr, size, r, q, z, hp, nu);
      GrownOnly(base, ring, ptr, size, r, q, z, hp, nu, n);
    }
  }

  lemma MadeFound(ring: seq<int>, size: Mem, at: int, nu: int, n: int, r: seq<int>, z: Mem, p: int, q: int, f: int)
    requires Sized(ring, size) && Sized(r, z) && OnlyMade(ring, size, at, nu, n, r, z)
    requires p in r && z[p] >= n && EntryBefore(r, p, f) && q == p + z[p] - n
    ensures Made(ring, size, at, nu, n, p, q, f)
  {
  }

  /** Back at freep with no fit, no block of the list fits. */
  lemma NothingFits(ring: seq<int>, size: Mem, freep: int, nunits: nat, k: nat, v: int, prevp: int, p: int)
    requires Scanned(ring, size, freep, nunits, k, v, prevp, p) && p == freep && size[p] < nunits && Increasing(ring)
    ensures !HasFit(ring, size, nunits)
  {
    assert v + 1 == |ring|;
    forall i | 0 <= i < |ring|
      ensures size[ring[i]] < nunits
    {
      var w := if i > k then i - k else i - k + |ring|;
      assert Step(k, w, |ring|) == i;
    }
  }

  /** Units a to a + n - 1, all free, leave the list and become a block handed out. */
  lemma HandedOut(base: int, ring: seq<int>, ptr: Mem, size: Mem, live: Mem, granted: set<int>,
                  r: seq<int>, q: Mem, z: Mem, a: int, n: int)
    requires HeapOk(base, ring, ptr, size, live, granted) && n > 0
    requires IsRing(base, r, q, z) && Coalesced(r, z) && a in z && z[a] == n
    requires forall u :: FreeUnit(r, z, u) <==> FreeUnit(ring, size, u) && !(a <= u < a + n)
    requires forall u | a <= u < a + n :: FreeUnit(ring, size, u)
    requires forall b | b in live :: b in z && (b != a ==> z[b] == size[b])
    ensures HeapOk(base, r, q, z, live[a := n], granted) && a !in live && a > base
  {
    assert FreeUnit(ring, size, a) && !LiveUnit(live, a);
    forall b | b in live
      ensures b != a && (b + live[b] <= a || a + n <= b)
    {
      NotLive(live, b, a);
      assert LiveUnit(live, b) && !FreeUnit(ring, size, b);
    }
    forall u
      ensures LiveUnit(live[a := n], u) <==> LiveUnit(live, u) || a <= u < a + n
    {
      LiveWith(live, a, n, u);
    }
  }

  lemma CarveAll(base: int, ring: seq<int>, ptr: Mem, size: Mem, live: Mem, granted: set<int>, k: nat)
    requires HeapOk(base, ring, ptr, size, live, granted) && 0 < k < |ring|
    ensures HeapOk(base, Remove(ring, k), ptr[ring[k - 1] := ptr[ring[k]]], size, live[ring[k] := size[ring[k]]], granted)
    ensures ring[k] !in live && ring[k] > base && ring[k - 1] in Remove(ring, k)
  {
    var r := Remove(ring, k);
    RemoveLinks(ring, ptr, k);
    RemovedSpaced(ring, size, k);
    forall u
      ensures FreeUnit(r, size, u) <==> FreeUnit(ring, size, u) && !(ring[k] <= u < ring[k] + size[ring[k]])
    {
      RemovedUnits(ring, size, k, u);
    }
    assert r[k - 1] == ring[k - 1];
    HandedOut(base, ring, ptr, size, live, granted, r, ptr[ring[k - 1] := ptr[ring[k]]], size, ring[k], size[ring[k]]);
  }

  lemma TailUnits(base: int, ring: seq<int>, ptr: Mem, size: Mem, k: nat, n: int, p: int, q: int, z: Mem)
    requires IsRing(base, ring, ptr, size) && Coalesced(ring, size) && 0 < k < |ring| && p == ring[k] && 0 < n < size[p]
    requires q == p + size[p] - n && z == size[p := size[p] - n][q := n]
    ensures IsRing(base, ring, ptr, z) && Coalesced(ring, z) && q !in ring
    ensures forall u :: FreeUnit(ring, z, u) <==> FreeUnit(ring, size, u) && !(q <= u < q + n)
    ensures forall u | q <= u < q + n :: FreeUnit(ring, size, u)
  {
    ShrunkSpaced(ring, size, k, n);
    forall u
      ensures FreeUnit(ring, z, u) <==> FreeUnit(ring, size, u) && !(q <= u < q + n)
    {
      ShrunkUnits(ring, size, k, n, u);
    }
  }

  lemma KeptSizes(base: int, ring: seq<int>, ptr: Mem, size: Mem, live: Mem, granted: set<int>, p: int, q: int, m: int, n: int, z: Mem)
    requires HeapOk(base, ring, ptr, size, live, granted) && p in ring && z == size[p := m][q := n]
    ensures forall b | b in live :: b in z && (b != q ==> z[b] == size[b])
  {
    forall b | b in live
      ensures b in z && (b != q ==> z[b] == size[b])
    {
      LiveNotInRing(base, ring, ptr, size, live, granted, b);
    }
  }

  lemma TailCarved(base: int, ring: seq<int>, ptr: Mem, size: Mem, live: Mem, granted: set<int>, k: nat, n: int,
                   p: int, q: int, z: Mem, l: Mem)
    requires HeapOk(base, ring, ptr, size, live, granted) && 0 < k < |ring| && p == ring[k] && 0 < n < size[p]
    requires q == p + size[p] - n && z == size[p := size[p] - n][q := n] && l == live[q := n]
    ensures HeapOk(base, ring, ptr, z, l, granted) && q !in live && q > base
  {
    TailUnits(base, ring, ptr, size, k, n, p, q, z);
    KeptSizes(base, ring, ptr, size, live, granted, p, q, size[p] - n, n, z);
    HandedOut(base, ring, ptr, size, live, granted, ring, ptr, z, q, n);
  }

  /** What sbrk answers. */
  datatype Sbrk = Failed | Grant(at: int)

  const MINCORE: nat := 4096

  function Core(nunits: nat): (n: nat) { if nunits < MINCORE then MINCORE else nunits }

  /** The int that sbrk receives for `nu * sizeof(Header)`. */
  function SbrkArg(nu: nat): (n: int) {
    var bytes := nu * HEADER % UINT;
    if bytes < UINT / 2 then bytes else bytes - UINT
  }

  /** When malloc has to ask, sbrk is asked for the bytes that morecore counts on if and only if
      nbytes is in one of these ranges. */
  lemma SbrkRequestExact(nbytes: nat)
    requires nbytes < UINT
    ensures var nu := Core(NUnits(nbytes));
            SbrkArg(nu) == nu * HEADER <==> nbytes <= 0x7fff_fff0 || nbytes >= 0xffff_fff9
  {
    var nu := NUnits(nbytes);
    if nbytes >= 0xffff_fff9 {
      assert nu == 1;
    } else {
      assert nu * HEADER == nbytes + HEADER - 1 - (nbytes + HEADER - 1) % HEADER + HEADER;
      assert nu * HEADER < UINT / 2 <==> nbytes <= 0x7fff_fff0;
    }
  }

  /** `malloc(0x7ffffff8)` would have sbrk give memory back. */
  lemma SbrkRequestNegative()
    ensures SbrkArg(Core(NUnits(0x7fff_fff8))) == -0x8000_0000
  {
  }

  ghost function Units(a: int, n: nat): (s: set<int>)
    ensures forall u :: u in s <==> a <= u < a + n
  {
    if n == 0 then {} else Units(a, n - 1) + {a + n - 1}
  }

  /** What sbrk returns lies above base and was never returned before. */
  ghost predicate Unused(base: int, granted: set<int>, sbrk: Sbrk, nunits: nat) {
    sbrk.Grant? ==> sbrk.at > base && forall u | sbrk.at <= u < sbrk.at + Core(nunits) :: u !in granted
  }

  /** Some free block has at least n units. */
  ghost predicate HasFit(ring: seq<int>, size: Mem, n: int) {
    exists i :: 0 <= i < |ring| && ring[i] in size && size[ring[i]] >= n
  }

  /** A region just obtained, before it is freed, is one more block handed out. */
  lemma GrantedHeap(base: int, ring: seq<int>, ptr: Mem, size: Mem, live: Mem, granted: set<int>, hp: int, nu: nat)
    requires HeapOk(base, ring, ptr, size, live, granted) && nu > 0 && hp > base
    requires forall u | hp <= u < hp + nu :: u !in granted
    ensures HeapOk(base, ring, ptr, size[hp := nu], live[hp := nu], granted + Units(hp, nu))
    ensures hp !in live
  {
    forall i | 0 <= i < |ring|
      ensures ring[i] != hp
    {
      if i > 0 { assert FreeUnit(ring, size, ring[i]); }
    }
    OtherSize(base, ring, ptr, size, hp, nu);
    GrantedLive(base, size, live, granted, hp, nu);
    GrantedParts(ring, size, live, granted, hp, nu);
  }

  lemma GrantedLive(base: int, size: Mem, live: Mem, granted: set<int>, hp: int, nu: nat)
    requires LiveOk(base, size, live) && nu > 0 && hp > base
    requires forall u | hp <= u < hp + nu :: u !in granted
    requires forall u :: LiveUnit(live, u) ==> u in granted
    ensures LiveOk(base, size[hp := nu], live[hp := nu]) && hp !in live
  {
    forall a | a in live
      ensures a != hp && (a + live[a] <= hp || hp + nu <= a)
    {
      assert LiveUnit(live, a) && !LiveUnit(live, hp);
      NotLive(live, a, hp);
    }
  }

  lemma GrantedParts(ring: seq<int>, size: Mem, live: Mem, granted: set<int>, hp: int, nu: nat)
    requires Sized(ring, size) && Partition(ring, size, live, granted) && hp !in live
    requires Sized(ring, size[hp := nu]) && SameUnits(ring, size[hp := nu], ring, size)
    requires forall u | hp <= u < hp + nu :: u !in granted
    ensures Partition(ring, size[hp := nu], live[hp := nu], granted + Units(hp, nu))
  {
    forall u
      ensures LiveUnit(live[hp := nu], u) <==> LiveUnit(live, u) || hp <= u < hp + nu
    {
      LiveWith(live, hp, nu, u);
    }
  }

  /** The size field of a header off the list does not matter to it. */
  lemma OtherSize(base: int, ring: seq<int>, ptr: Mem, size: Mem, hp: int, nu: int)
    requires IsRing(base, ring, ptr, size) && Coalesced(ring, size) && hp !in ring
    ensures IsRing(base, ring, ptr, size[hp := nu]) && Coalesced(ring, size[hp := nu])
    ensures SameUnits(ring, size[hp := nu], ring, size)
  {
    var z := size[hp := nu];
    forall i | 0 <= i < |ring|
      ensures !Touches(ring, z, i)
    {
      assert Touches(ring, z, i) == Touches(ring, size, i);
    }
  }

  lemma LiveWith(live: Mem, hp: int, nu: int, u: int)
    requires hp !in live
    ensures LiveUnit(live[hp := nu], u) <==> LiveUnit(live, u) || hp <= u < hp + nu
  {
    var l := live[hp := nu];
    if LiveUnit(live, u) {
      var a :| a in live && a <= u < a + live[a];
      assert a in l && l[a] == live[a];
    }
    assert hp in l;
  }

  /** In a coalesced list, consecutive free units are in one block. */
  lemma BigBlock(base: int, ring: seq<int>, ptr: Mem, size: Mem, live: Mem, granted: set<int>, hp: int, nu: nat)
    requires HeapOk(base, ring, ptr, size, live, granted) && nu > 0
    requires forall u | hp <= u < hp + nu :: u in granted && !LiveUnit(live, u)
    ensures HasFit(ring, size, nu)
  {
    assert FreeUnit(ring, size, hp);
    var i :| 0 <= i < |ring| && ring[i] <= hp < ring[i] + size[ring[i]];
    EndNotFree(base, ring, ptr, size, i);
    var e := ring[i] + size[ring[i]];
    assert e < hp + nu ==> e in granted && !LiveUnit(live, e);
  }

  /** Just after a block of a coalesced list no free unit follows. */
  lemma EndNotFree(base: int, ring: seq<int>, ptr: Mem, size: Mem, i: nat)
    requires IsRing(base, ring, ptr, size) && Coalesced(ring, size) && i < |ring|
    ensures !FreeUnit(ring, size, ring[i] + size[ring[i]])
  {
    assert !Touches(ring, size, i);
  }

  /** No other live block shares a unit with hp's. */
  lemma LiveUnits(base: int, size: Mem, live: Mem, hp: int)
    requires LiveOk(base, size, live) && hp in live
    ensures forall u | hp <= u < hp + live[hp] :: !LiveUnit(live - {hp}, u)
  {
  }

  lemma LiveNotInRing(base: int, ring: seq<int>, ptr: Mem, size: Mem, live: Mem, granted: set<int>, bp: int)
    requires HeapOk(base, ring, ptr, size, live, granted) && bp in live
    ensures bp !in ring
  {
    assert LiveUnit(live, bp);
    forall i | 0 <= i < |ring|
      ensures ring[i] != bp
    {
      NotFree(ring, size, i, bp);
    }
  }

  /** A block that ends where its successor starts has one: the list cannot wrap to base there. */
  lemma NextTouches(base: int, ring: seq<int>, ptr: Mem, size: Mem, bp: int, t: nat)
    requires IsRing(base, ring, ptr, size) && bp in size && Between(ring, size, bp, size[bp], t)
    requires bp + size[bp] == FreeRing.After(ring, t)
    ensures t + 1 < |ring| && bp + size[bp] == ring[t + 1]
  {
  }

  lemma NextIn(base: int, ring: seq<int>, ptr: Mem, size: Mem, t: nat)
    requires IsRing(base, ring, ptr, size) && t < |ring|
    ensures ring[t] in ptr && var next := ptr[ring[t]]; next == FreeRing.After(ring, t) && next in ptr && next in size
  {
    assert ptr[ring[t]] == FreeRing.After(ring, t);
  }

  lemma NextJoined(base: int, ring: seq<int>, ptr: Mem, size: Mem, bp: int, t: nat, p: int, next: int, r: seq<int>)
    requires IsRing(base, ring, ptr, size) && Coalesced(ring, size) && bp in size && Between(ring, size, bp, size[bp], t)
    requires p == ring[t] && next == FreeRing.After(ring, t) == bp + size[bp] && r == Remove(Insert(ring, t, bp), t + 2)
    ensures next in ptr && next in size
    ensures PutIn(base, ring, size, bp, t, r, ptr[bp := ptr[next]][p := bp], size[bp := size[bp] + size[next]], t + 1)
  {
    NextTouches(base, ring, ptr, size, bp, t);
    PutAfter(base, ring, ptr, size, bp, t);
    var q := ptr[bp := ptr[ring[t]]][ring[t] := bp];
    JoinNext(base, ring, size, bp, t, Insert(ring, t, bp), q, size);
    SwapUpdates(ptr, bp, ring[t], ptr[ring[t]], q[ring[t + 1]]);
  }

  lemma SwapUpdates(m: Mem, a: int, b: int, x: int, y: int)
    requires a != b
    ensures m[a := x][b := a][a := y] == m[a := y][b := a]
  {
  }

  lemma NextApart(base: int, ring: seq<int>, ptr: Mem, size: Mem, bp: int, t: nat, p: int, next: int, r: seq<int>)
    requires IsRing(base, ring, ptr, size) && Coalesced(ring, size) && bp in size && Between(ring, size, bp, size[bp], t)
    requires p == ring[t] && next == FreeRing.After(ring, t) != bp + size[bp] && r == Insert(ring, t, bp)
    ensures PutIn(base, ring, size, bp, t, r, ptr[bp := next][p := bp], size, t + 1)
  {
    PutAfter(base, ring, ptr, size, bp, t);
    assert !Touches(r, size, t + 1);
  }

  /** The list after free: p is on it, and bp's units are free too. */
  ghost predicate Rejoined(base: int, ring: seq<int>, was: Mem, bp: int, p: int, r: seq<int>, q: Mem, z: Mem) {
    && IsRing(base, r, q, z) && Coalesced(r, z) && p in r && Sized(ring, was) && bp in was
    && (forall u :: FreeUnit(r, z, u) <==> FreeUnit(ring, was, u) || bp <= u < bp + was[bp])
  }

  lemma PrevJoined(base: int, ring: seq<int>, was: Mem, bp: int, t: nat, r: seq<int>, ptr: Mem, size: Mem, p: int, r': seq<int>)
    requires bp in ptr && t < |ring| && p == ring[t] && PutIn(base, ring, was, bp, t, r, ptr[p := bp], size, t + 1)
    requires p in size && p + size[p] == bp && r' == Remove(r, t + 1)
    ensures Rejoined(base, ring, was, bp, p, r', ptr[p := ptr[bp]], size[p := size[p] + size[bp]])
  {
    JoinPrev(base, ring, was, bp, t, r, ptr[p := bp], size);
    assert ptr[p := bp][p := ptr[p := bp][bp]] == ptr[p := ptr[bp]];
  }

  lemma PrevApart(base: int, ring: seq<int>, was: Mem, bp: int, t: nat, r: seq<int>, ptr: Mem, size: Mem, p: int)
    requires t < |ring| && p == ring[t] && PutIn(base, ring, was, bp, t, r, ptr[p := bp], size, t + 1)
    requires p in size && p + size[p] != bp
    ensures Rejoined(base, ring, was, bp, p, r, ptr[p := bp], size)
  {
    assert !Touches(r, size, t);
  }

  lemma LiveWithout(live: Mem, bp: int, u: int)
    requires bp in live && forall a, b | a in live && b in live && a < b :: a + live[a] <= b
    ensures LiveUnit(live - {bp}, u) <==> LiveUnit(live, u) && !(bp <= u < bp + live[bp])
  {
    if LiveUnit(live, u) && !(bp <= u < bp + live[bp]) {
      var a :| a in live && a <= u < a + live[a];
      assert a in live - {bp};
    }
  }

  lemma FreedHeap(base: int, ring: seq<int>, ptr: Mem, size: Mem, live: Mem, granted: set<int>, bp: int, t: nat,
                  r: seq<int>, q: Mem, z: Mem)
    requires HeapOk(base, ring, ptr, size, live, granted) && bp in live && t < |ring|
    requires IsRing(base, r, q, z) && Coalesced(r, z)
    requires forall u :: FreeUnit(r, z, u) <==> FreeUnit(ring, size, u) || bp <= u < bp + live[bp]
    requires forall a | a in size && a != bp && a != ring[t] :: a in z && z[a] == size[a]
    ensures HeapOk(base, r, q, z, live - {bp}, granted)
  {
    forall a | a in live - {bp}
      ensures a in z && z[a] == live[a]
    {
      LiveNotInRing(base, ring, ptr, size, live, granted, a);
    }
    forall u
      ensures LiveUnit(live - {bp}, u) <==> LiveUnit(live, u) && !(bp <= u < bp + live[bp])
    {
      LiveWithout(live, bp, u);
    }
    forall u | bp <= u < bp + live[bp]
      ensures LiveUnit(live, u)
    {
    }
  }

  lemma Freed(base: int, ring: seq<int>, ptr: Mem, size: Mem, live: Mem, granted: set<int>, bp: int, t: nat, size1: Mem,
              r: seq<int>, q: Mem, z: Mem)
    requires HeapOk(base, ring, ptr, size, live, granted) && bp in live && t < |ring|
    requires Rejoined(base, ring, size, bp, ring[t], r, q, z)
    requires forall a | a in size && a != bp :: a in size1 && size1[a] == size[a]
    requires forall a | a in size1 && a != ring[t] :: a in z && z[a] == size1[a]
    ensures HeapOk(base, r, q, z, live - {bp}, granted) && ring[t] in r
  {
    FreedHeap(base, ring, ptr, size, live, granted, bp, t, r, q, z);
  }

  lemma LastBelow(ring: seq<int>, bp: int, t: nat)
    requires Increasing(ring) && t < |ring| && ring[t] < bp && (t + 1 < |ring| ==> bp < ring[t + 1])
    ensures EntryBefore(ring, bp, ring[t])
  {
  }

  /** The last entry below bp. */
  ghost function Position(ring: seq<int>, bp: int): (t: nat)
    requires |ring| > 0 && ring[0] < bp && Increasing(ring) && bp !in ring
    ensures t < |ring| && ring[t] < bp && (t + 1 < |ring| ==> bp < ring[t + 1])
  {
    var n := |ring| - 1;
    if ring[n] < bp then n else
      assert bp !in ring[..n];
      Position(ring[..n], bp)
  }
}
