/** The free list of umalloc.c: a circular list of blocks in address order.

    Addresses count Headers, so a block at a with size n covers the units a .. a + n - 1.
 */
module FreeRing {
  type Mem = map<int, int>

  ghost predicate Increasing(ring: seq<int>) { forall i, j | 0 <= i < j < |ring| :: ring[i] < ring[j] }

  /** The successor of entry i, going round. */
  function After(ring: seq<int>, i: int): (a: int)
    requires 0 <= i < |ring|
  {
    ring[if i + 1 == |ring| then 0 else i + 1]
  }

  /** The `s.ptr` fields go round the ring. */
  ghost predicate Links(ring: seq<int>, ptr: Mem) {
    && (forall i | 0 <= i < |ring| :: ring[i] in ptr)
    && (forall i {:trigger After(ring, i)} | 0 <= i < |ring| :: ptr[ring[i]] == After(ring, i))
  }

  ghost predicate Sized(ring: seq<int>, size: Mem) {
    && (forall i | 0 <= i < |ring| :: ring[i] in size)
    && (forall i | 1 <= i < |ring| :: size[ring[i]] > 0)
    && (|ring| > 0 ==> size[ring[0]] == 0)
  }

  /** Blocks do not overlap. */
  ghost predicate Spaced(ring: seq<int>, size: Mem)
    requires Sized(ring, size)
  {
    forall i, j | 0 <= i < j < |ring| :: ring[i] + size[ring[i]] <= ring[j]
  }

  /** Entry i ends where the next one starts. */
  predicate Touches(ring: seq<int>, size: Mem, i: int)
    requires 0 <= i < |ring| && ring[i] in size
  {
    i + 1 < |ring| && ring[i] + size[ring[i]] == ring[i + 1]
  }

  /** Neighbours in the list do not touch. */
  ghost predicate Coalesced(ring: seq<int>, size: Mem)
    requires Sized(ring, size)
  {
    forall i | 0 <= i < |ring| :: !Touches(ring, size, i)
  }

  /** A circular list from base in address order. */
  ghost predicate IsRing(base: int, ring: seq<int>, ptr: Mem, size: Mem) {
    |ring| > 0 && ring[0] == base && Increasing(ring) && Links(ring, ptr) && Sized(ring, size) && Spaced(ring, size)
  }

  /** Unit u lies in a free block. */
  ghost predicate FreeUnit(ring: seq<int>, size: Mem, u: int)
    requires Sized(ring, size)
  {
    exists i :: 0 <= i < |ring| && ring[i] <= u < ring[i] + size[ring[i]]
  }

  // ---- linking a block in ----

  function Insert(ring: seq<int>, t: nat, bp: int): (r: seq<int>)
    requires t < |ring|
    ensures |r| == |ring| + 1
    ensures forall i | 0 <= i < |r| :: r[i] == if i <= t then ring[i] else if i == t + 1 then bp else ring[i - 1]
  {
    ring[..t + 1] + [bp] + ring[t + 1..]
  }

  /** Block bp, with bn units, lies between entries t and t + 1. */
  ghost predicate Between(ring: seq<int>, size: Mem, bp: int, bn: int, t: nat)
    requires Sized(ring, size)
  {
    && t < |ring| && bn > 0
    && (forall i | 0 <= i <= t :: ring[i] < bp && ring[i] + size[ring[i]] <= bp)
    && (forall i | t < i < |ring| :: bp + bn <= ring[i])
  }

  lemma InsertLinks(ring: seq<int>, ptr: Mem, bp: int, t: nat)
    requires Increasing(ring) && Links(ring, ptr) && t < |ring| && bp !in ring
    ensures Links(Insert(ring, t, bp), ptr[bp := ptr[ring[t]]][ring[t] := bp])
  {
    var r := Insert(ring, t, bp);
    forall i | 0 <= i < |r|
      ensures ptr[bp := ptr[ring[t]]][ring[t] := bp][r[i]] == After(r, i)
    {
      assert ptr[ring[t]] == After(ring, t);
      if i < t { assert ptr[ring[i]] == After(ring, i); }
      if i > t + 1 { assert ptr[ring[i - 1]] == After(ring, i - 1); }
    }
  }

  lemma InsertSpaced(ring: seq<int>, size: Mem, bp: int, t: nat)
    requires Increasing(ring) && Sized(ring, size) && Spaced(ring, size)
    requires bp in size && Between(ring, size, bp, size[bp], t)
    ensures var r := Insert(ring, t, bp); Increasing(r) && Sized(r, size) && Spaced(r, size)
  {
    var r := Insert(ring, t, bp);
    forall i, j | 0 <= i < j < |r|
      ensures r[i] < r[j] && r[i] in size && r[i] + size[r[i]] <= r[j]
    {
    }
  }

  lemma InsertUnits(ring: seq<int>, size: Mem, bp: int, t: nat, u: int)
    requires Sized(ring, size) && t < |ring| && bp in size && Sized(Insert(ring, t, bp), size)
    ensures FreeUnit(Insert(ring, t, bp), size, u) <==> FreeUnit(ring, size, u) || bp <= u < bp + size[bp]
  {
    var r := Insert(ring, t, bp);
    if FreeUnit(ring, size, u) {
      var i :| 0 <= i < |ring| && ring[i] <= u < ring[i] + size[ring[i]];
      assert r[if i <= t then i else i + 1] == ring[i];
    }
    assert r[t + 1] == bp;
  }

  lemma InsertTouches(ring: seq<int>, size: Mem, bp: int, t: nat, i: int)
    requires Sized(ring, size) && t < |ring| && bp in size && Sized(Insert(ring, t, bp), size)
    requires 0 <= i < |ring| + 1 && i != t && i != t + 1
    ensures Touches(Insert(ring, t, bp), size, i) == Touches(ring, size, if i < t then i else i - 1)
  {
  }

  /** Putting bp after entry t: a ring again, with bp's units added; only bp may touch a neighbour. */
  lemma Inserted(base: int, ring: seq<int>, ptr: Mem, size: Mem, bp: int, t: nat)
    requires IsRing(base, ring, ptr, size) && Coalesced(ring, size) && bp in size && Between(ring, size, bp, size[bp], t)
    ensures IsRing(base, Insert(ring, t, bp), ptr[bp := ptr[ring[t]]][ring[t] := bp], size)
    ensures forall u :: FreeUnit(Insert(ring, t, bp), size, u) <==> FreeUnit(ring, size, u) || bp <= u < bp + size[bp]
    ensures CoalescedBut(Insert(ring, t, bp), size, t, t + 2)
  {
    InsertLinks(ring, ptr, bp, t);
    InsertSpaced(ring, size, bp, t);
    forall u
      ensures FreeUnit(Insert(ring, t, bp), size, u) <==> FreeUnit(ring, size, u) || bp <= u < bp + size[bp]
    {
      InsertUnits(ring, size, bp, t, u);
    }
    forall i | 0 <= i <= |ring| && i != t && i != t + 1
      ensures !Touches(Insert(ring, t, bp), size, i)
    {
      InsertTouches(ring, size, bp, t, i);
    }
  }

  // ---- merging a block with its successor ----

  function Remove(ring: seq<int>, k: nat): (r: seq<int>)
    requires k < |ring|
    ensures |r| == |ring| - 1
    ensures forall i | 0 <= i < |r| :: r[i] == if i < k then ring[i] else ring[i + 1]
  {
    ring[..k] + ring[k + 1..]
  }

  lemma RemoveLinks(ring: seq<int>, ptr: Mem, k: nat)
    requires Increasing(ring) && Links(ring, ptr) && 0 < k < |ring|
    ensures Links(Remove(ring, k), ptr[ring[k - 1] := ptr[ring[k]]])
  {
    var r := Remove(ring, k);
    forall i | 0 <= i < |r|
      ensures ptr[ring[k - 1] := ptr[ring[k]]][r[i]] == After(r, i)
    {
      assert ptr[ring[k]] == After(ring, k);
      if i < k - 1 { assert ptr[ring[i]] == After(ring, i); }
      if i >= k { assert ptr[ring[i + 1]] == After(ring, i + 1); }
    }
  }

  lemma MergeSpaced(ring: seq<int>, size: Mem, k: nat)
    requires Increasing(ring) && Sized(ring, size) && Spaced(ring, size) && 1 < k < |ring|
    requires ring[k - 1] + size[ring[k - 1]] == ring[k]
    ensures var r := Remove(ring, k); var z := size[ring[k - 1] := size[ring[k - 1]] + size[ring[k]]];
            Increasing(r) && Sized(r, z) && Spaced(r, z)
  {
    var r := Remove(ring, k);
    var z := size[ring[k - 1] := size[ring[k - 1]] + size[ring[k]]];
    forall i, j | 0 <= i < j < |r|
      ensures r[i] < r[j] && r[i] in z && r[i] + z[r[i]] <= r[j]
    {
    }
  }

  lemma MergeUnits(ring: seq<int>, size: Mem, k: nat, u: int)
    requires Increasing(ring) && Sized(ring, size) && 1 < k < |ring|
    requires ring[k - 1] + size[ring[k - 1]] == ring[k]
    requires Sized(Remove(ring, k), size[ring[k - 1] := size[ring[k - 1]] + size[ring[k]]])
    ensures FreeUnit(Remove(ring, k), size[ring[k - 1] := size[ring[k - 1]] + size[ring[k]]], u) <==> FreeUnit(ring, size, u)
  {
    var r := Remove(ring, k);
    var z := size[ring[k - 1] := size[ring[k - 1]] + size[ring[k]]];
    if FreeUnit(ring, size, u) {
      var i :| 0 <= i < |ring| && ring[i] <= u < ring[i] + size[ring[i]];
      assert r[if i < k then i else i - 1] == if i == k then ring[k - 1] else ring[i];
    }
    if FreeUnit(r, z, u) {
      var i :| 0 <= i < |r| && r[i] <= u < r[i] + z[r[i]];
      if i == k - 1 && u >= ring[k] { assert ring[k] <= u < ring[k] + size[ring[k]]; }
    }
  }

  lemma MergeTouches(ring: seq<int>, size: Mem, k: nat, i: int)
    requires Increasing(ring) && Sized(ring, size) && 1 < k < |ring| && ring[k - 1] + size[ring[k - 1]] == ring[k]
    requires 0 <= i < |ring| - 1
    ensures Touches(Remove(ring, k), size[ring[k - 1] := size[ring[k - 1]] + size[ring[k]]], i)
            == Touches(ring, size, if i < k - 1 then i else i + 1)
  {
  }

  /** Merging entry k into the one before it: a ring again, with the same units. */
  lemma Merged(base: int, ring: seq<int>, ptr: Mem, size: Mem, k: nat)
    requires IsRing(base, ring, ptr, size) && 1 < k < |ring| && ring[k - 1] + size[ring[k - 1]] == ring[k]
    ensures IsRing(base, Remove(ring, k), ptr[ring[k - 1] := ptr[ring[k]]],
                   size[ring[k - 1] := size[ring[k - 1]] + size[ring[k]]])
    ensures SameUnits(Remove(ring, k), size[ring[k - 1] := size[ring[k - 1]] + size[ring[k]]], ring, size)
  {
    RemoveLinks(ring, ptr, k);
    MergeSpaced(ring, size, k);
    var r := Remove(ring, k);
    var z := size[ring[k - 1] := size[ring[k - 1]] + size[ring[k]]];
    forall u
      ensures FreeUnit(r, z, u) <==> FreeUnit(ring, size, u)
    {
      MergeUnits(ring, size, k, u);
    }
  }

  ghost predicate SameUnits(r: seq<int>, z: Mem, ring: seq<int>, size: Mem)
    requires Sized(r, z) && Sized(ring, size)
  {
    forall u :: FreeUnit(r, z, u) <==> FreeUnit(ring, size, u)
  }

  /** At most entries lo and lo + 1 end where the next one starts. */
  ghost predicate CoalescedBut(ring: seq<int>, size: Mem, lo: int, hi: int)
    requires Sized(ring, size)
  {
    forall i | 0 <= i < |ring| && !(lo <= i < hi) :: !Touches(ring, size, i)
  }

  /** A merge at the last place where neighbours may touch leaves one such place less. */
  lemma MergedCoalesced(ring: seq<int>, size: Mem, k: nat, lo: int)
    requires Increasing(ring) && Sized(ring, size) && 1 < k < |ring| && ring[k - 1] + size[ring[k - 1]] == ring[k]
    requires Sized(Remove(ring, k), size[ring[k - 1] := size[ring[k - 1]] + size[ring[k]]])
    requires lo <= k - 1 && CoalescedBut(ring, size, lo, k)
    ensures CoalescedBut(Remove(ring, k), size[ring[k - 1] := size[ring[k - 1]] + size[ring[k]]], lo, k - 1)
  {
    var r := Remove(ring, k);
    var z := size[ring[k - 1] := size[ring[k - 1]] + size[ring[k]]];
    forall i: int | 0 <= i < |r| && !(lo <= i < k - 1)
      ensures !Touches(r, z, i)
    {
      MergeTouches(ring, size, k, i);
    }
  }

  // ---- taking units out ----

  lemma RemovedSpaced(ring: seq<int>, size: Mem, k: nat)
    requires Increasing(ring) && Sized(ring, size) && Spaced(ring, size) && Coalesced(ring, size) && 0 < k < |ring|
    ensures var r := Remove(ring, k); Increasing(r) && Sized(r, size) && Spaced(r, size) && Coalesced(r, size)
  {
    var r := Remove(ring, k);
    forall i | 0 <= i < |r|
      ensures !Touches(r, size, i)
    {
      if i < k - 1 { assert Touches(r, size, i) == Touches(ring, size, i); }
      if i >= k { assert Touches(r, size, i) == Touches(ring, size, i + 1); }
    }
  }

  lemma RemovedUnits(ring: seq<int>, size: Mem, k: nat, u: int)
    requires Increasing(ring) && Sized(ring, size) && Spaced(ring, size) && 0 < k < |ring| && Sized(Remove(ring, k), size)
    ensures FreeUnit(Remove(ring, k), size, u) <==> FreeUnit(ring, size, u) && !(ring[k] <= u < ring[k] + size[ring[k]])
  {
    var r := Remove(ring, k);
    if FreeUnit(ring, size, u) && !(ring[k] <= u < ring[k] + size[ring[k]]) {
      var i :| 0 <= i < |ring| && ring[i] <= u < ring[i] + size[ring[i]];
      assert r[if i < k then i else i - 1] == ring[i];
    }
  }

  /** Taking the last n units off entry k. */
  lemma ShrunkSpaced(ring: seq<int>, size: Mem, k: nat, n: int)
    requires Increasing(ring) && Sized(ring, size) && Spaced(ring, size) && Coalesced(ring, size)
    requires 0 < k < |ring| && 0 < n < size[ring[k]]
    ensures var p := ring[k]; var q := p + size[p] - n; var z := size[p := size[p] - n][q := n];
            q !in ring && Sized(ring, z) && Spaced(ring, z) && Coalesced(ring, z)
  {
    var p := ring[k];
    var q := p + size[p] - n;
    var z := size[p := size[p] - n][q := n];
    forall i | 0 <= i < |ring|
      ensures ring[i] != q
    {
      if i > k { assert ring[k] + size[ring[k]] <= ring[i]; }
    }
    forall i | 0 <= i < |ring|
      ensures !Touches(ring, z, i)
    {
      assert !Touches(ring, size, i);
    }
  }

  lemma ShrunkUnits(ring: seq<int>, size: Mem, k: nat, n: int, u: int)
    requires Increasing(ring) && Sized(ring, size) && Spaced(ring, size) && 0 < k < |ring| && 0 < n < size[ring[k]]
    requires var p := ring[k]; var q := p + size[p] - n; q !in ring && Sized(ring, size[p := size[p] - n][q := n])
    ensures var p := ring[k]; var q := p + size[p] - n;
            FreeUnit(ring, size[p := size[p] - n][q := n], u) <==> FreeUnit(ring, size, u) && !(q <= u < q + n)
  {
    var p := ring[k];
    var q := p + size[p] - n;
    var z := size[p := size[p] - n][q := n];
    forall i | 0 <= i < |ring|
      ensures ring[i] <= u < ring[i] + z[ring[i]] <==> ring[i] <= u < ring[i] + size[ring[i]] && !(q <= u < q + n)
    {
      if i < k { assert ring[i] + size[ring[i]] <= ring[k]; }
      if i > k { assert ring[k] + size[ring[k]] <= ring[i]; }
    }
  }
}
