/** Which block malloc takes: the first after freep that is big enough, or the one that morecore made. */
module FirstFit {
  import opened FreeRing

  /** Going round from just after freep in address order, p is the first block with n units. */
  ghost predicate First(ring: seq<int>, size: Mem, freep: int, n: int, p: int)
    requires Sized(ring, size)
  {
    && p in ring && size[p] >= n
    && forall a | a in ring && size[a] >= n ::
         if p > freep then a <= freep || p <= a else p <= a <= freep
  }

  /** f is the entry before p. */
  ghost predicate EntryBefore(ring: seq<int>, p: int, f: int) {
    f in ring && f < p && forall a | a in ring && a < p :: a <= f
  }

  /** Units from at on, freed, are in a block that starts at p: there, or where a block begins that ends there. */
  ghost predicate StartsAt(ring: seq<int>, size: Mem, at: int, p: int)
    requires Sized(ring, size)
  {
    || (p < at && p in ring && p + size[p] == at)
    || (p == at && forall b | b in ring :: b + size[b] != at)
  }

  /** Units up to c, freed, are in a block that ends at e: there, or where a block ends that begins there. */
  ghost predicate EndsAt(ring: seq<int>, size: Mem, c: int, e: int)
    requires Sized(ring, size)
  {
    if c in ring then e == c + size[c] else e == c
  }

  // ---- blocks are the longest runs of free units ----

  lemma Run(base: int, ring: seq<int>, ptr: Mem, size: Mem, a: int)
    requires IsRing(base, ring, ptr, size) && Coalesced(ring, size) && a in ring
    ensures base <= a && (a == base <==> size[a] == 0) && size[a] >= 0
    ensures forall u | a <= u < a + size[a] :: FreeUnit(ring, size, u)
    ensures !FreeUnit(ring, size, a + size[a]) && !FreeUnit(ring, size, a - 1)
  {
    var i :| 0 <= i < |ring| && ring[i] == a;
    assert !Touches(ring, size, i);
    assert i > 0 ==> !Touches(ring, size, i - 1);
    assert i > 0 ==> ring[0] < ring[i];
    forall j | 0 <= j < |ring| ensures !(ring[j] <= a - 1 < ring[j] + size[ring[j]]) {
      if j < i - 1 { assert ring[j] + size[ring[j]] <= ring[i - 1] < a; }
    }
  }

  /** A free unit with none before it begins a block. */
  lemma RunStart(base: int, ring: seq<int>, ptr: Mem, size: Mem, a: int)
    requires IsRing(base, ring, ptr, size) && FreeUnit(ring, size, a) && !FreeUnit(ring, size, a - 1)
    ensures a in ring
  {
    var i :| 0 <= i < |ring| && ring[i] <= a < ring[i] + size[ring[i]];
    assert ring[i] == a;
  }

  /** The list (r, q, z) is (ring, ptr, size) with the units at .. at + nu - 1, none of them free before. */
  ghost predicate Grown(base: int, ring: seq<int>, ptr: Mem, size: Mem, r: seq<int>, q: Mem, z: Mem, at: int, nu: int) {
    && IsRing(base, ring, ptr, size) && Coalesced(ring, size) && IsRing(base, r, q, z) && Coalesced(r, z)
    && base < at && 0 < nu
    && (forall u | at <= u < at + nu :: !FreeUnit(ring, size, u))
    && (forall u :: FreeUnit(r, z, u) <==> FreeUnit(ring, size, u) || at <= u < at + nu)
  }

  /** A run of free units is in one block. */
  lemma RunInBlock(base: int, ring: seq<int>, ptr: Mem, size: Mem, a: int, e: int) returns (b: int)
    requires IsRing(base, ring, ptr, size) && Coalesced(ring, size) && a < e
    requires forall u | a <= u < e :: FreeUnit(ring, size, u)
    ensures b in ring && b <= a && e <= b + size[b]
  {
    assert FreeUnit(ring, size, a);
    var i :| 0 <= i < |ring| && ring[i] <= a < ring[i] + size[ring[i]];
    b := ring[i];
    Run(base, ring, ptr, size, b);
  }

  /** If nothing fitted before, a block that fits now has the new units in it. */
  lemma GrownHolds(base: int, ring: seq<int>, ptr: Mem, size: Mem, r: seq<int>, q: Mem, z: Mem, at: int, nu: int, n: int, p: int)
    requires Grown(base, ring, ptr, size, r, q, z, at, nu) && n > 0 && p in r && z[p] >= n
    requires forall a | a in ring :: size[a] < n
    ensures p <= at && at + nu <= p + z[p]
  {
    Run(base, r, q, z, p);
    var e := p + z[p];
    if p >= at + nu || e <= at {
      forall u | p <= u < e ensures FreeUnit(ring, size, u) { assert FreeUnit(r, z, u); }
      var b := RunInBlock(base, ring, ptr, size, p, e);
    } else {
      assert !FreeUnit(r, z, p - 1) && !FreeUnit(r, z, e);
    }
  }

  lemma GrownStart(base: int, ring: seq<int>, ptr: Mem, size: Mem, r: seq<int>, q: Mem, z: Mem, at: int, nu: int, p: int)
    requires Grown(base, ring, ptr, size, r, q, z, at, nu) && p in r && p <= at < p + z[p]
    ensures StartsAt(ring, size, at, p)
  {
    Run(base, r, q, z, p);
    if p < at {
      assert FreeUnit(r, z, p) && !FreeUnit(r, z, p - 1);
      RunStart(base, ring, ptr, size, p);
      Run(base, ring, ptr, size, p);
      var f := p + size[p];
      assert !FreeUnit(ring, size, f) && (FreeUnit(r, z, f) <==> at <= f < at + nu);
      assert !FreeUnit(ring, size, at);
    } else {
      assert !FreeUnit(r, z, at - 1) && !FreeUnit(ring, size, at - 1);
      forall b | b in ring ensures b + size[b] != at { Run(base, ring, ptr, size, b); }
    }
  }

  lemma GrownEnd(base: int, ring: seq<int>, ptr: Mem, size: Mem, r: seq<int>, q: Mem, z: Mem, at: int, nu: int, p: int)
    requires Grown(base, ring, ptr, size, r, q, z, at, nu) && p in r && p <= at && at + nu <= p + z[p]
    ensures EndsAt(ring, size, at + nu, p + z[p])
  {
    var c, e := at + nu, p + z[p];
    Run(base, r, q, z, p);
    if c in ring {
      Run(base, ring, ptr, size, c);
      var f := c + size[c];
      assert !FreeUnit(ring, size, f) && !FreeUnit(r, z, f);
      assert !FreeUnit(r, z, e) && !FreeUnit(ring, size, e);
    } else if c < e {
      assert FreeUnit(r, z, c) && !FreeUnit(ring, size, c - 1);
      RunStart(base, ring, ptr, size, c);
    }
  }

  /** Below the new units the list is as it was. */
  lemma GrownBelow(base: int, ring: seq<int>, ptr: Mem, size: Mem, r: seq<int>, q: Mem, z: Mem, at: int, nu: int, a: int)
    requires Grown(base, ring, ptr, size, r, q, z, at, nu) && a < at && (a in r || a in ring)
    ensures a in r <==> a in ring
  {
    if a in r {
      Run(base, r, q, z, a);
      if a != base {
        assert FreeUnit(r, z, a) && !FreeUnit(r, z, a - 1);
        RunStart(base, ring, ptr, size, a);
      }
    } else {
      Run(base, ring, ptr, size, a);
      if a != base {
        assert FreeUnit(ring, size, a) && !FreeUnit(ring, size, a - 1);
        RunStart(base, r, q, z, a);
      }
    }
  }

  /** q is the last n units of the first fit p, with freep left at the entry before p. */
  ghost predicate Taken(ring: seq<int>, size: Mem, freep: int, n: int, p: int, q: int, f: int)
    requires Sized(ring, size)
  {
    First(ring, size, freep, n, p) && EntryBefore(ring, p, f) && q == p + size[p] - n
  }

  /** q is the last n units of the block that the units at .. at + nu - 1 have become part of. */
  ghost predicate Made(ring: seq<int>, size: Mem, at: int, nu: int, n: int, p: int, q: int, f: int)
    requires Sized(ring, size)
  {
    StartsAt(ring, size, at, p) && EndsAt(ring, size, at + nu, q + n) && EntryBefore(ring, p, f)
  }

  /** Every block of (r, z) that fits is the one made by those units. */
  ghost predicate OnlyMade(ring: seq<int>, size: Mem, at: int, nu: int, n: int, r: seq<int>, z: Mem)
    requires Sized(ring, size) && Sized(r, z)
  {
    forall p, f | p in r && z[p] >= n && EntryBefore(r, p, f) :: Made(ring, size, at, nu, n, p, p + z[p] - n, f)
  }

  lemma GrownOnly(base: int, ring: seq<int>, ptr: Mem, size: Mem, r: seq<int>, q: Mem, z: Mem, at: int, nu: int, n: int)
    requires Grown(base, ring, ptr, size, r, q, z, at, nu) && n > 0 && forall a | a in ring :: size[a] < n
    ensures OnlyMade(ring, size, at, nu, n, r, z)
  {
    forall p, f | p in r && z[p] >= n && EntryBefore(r, p, f) ensures Made(ring, size, at, nu, n, p, p + z[p] - n, f) {
      GrownHolds(base, ring, ptr, size, r, q, z, at, nu, n, p);
      GrownStart(base, ring, ptr, size, r, q, z, at, nu, p);
      GrownEnd(base, ring, ptr, size, r, q, z, at, nu, p);
      GrownBelow(base, ring, ptr, size, r, q, z, at, nu, f);
      forall a | a in ring && a < p ensures a <= f { GrownBelow(base, ring, ptr, size, r, q, z, at, nu, a); }
    }
  }
}
