/** The list of free frames, threaded through the first word of each free page. */
module FrameList {
  import opened PageTables

  /** The kernel address of a frame. */
  function Addr(f: Frame): (v: nat) { KERNBASE + f * PGSIZE }

  /** The frame that holds a kernel address. */
  function FrameAt(v: nat): (f: Frame)
    ensures v >= KERNBASE && v % PGSIZE == 0 ==> Addr(f) == v
  {
    if v < KERNBASE then 0 else (v - KERNBASE) / PGSIZE
  }

  lemma FrameAtAddr(f: Frame)
    ensures FrameAt(Addr(f)) == f && Addr(f) % PGSIZE == 0
  {
  }

  function LinkTo(free: seq<Frame>, k: nat): (v: nat) { if k < |free| then Addr(free[k]) else 0 }

  ghost predicate Distinct(free: seq<Frame>) {
    free == [] || (free[0] !in free[1..] && Distinct(free[1..]))
  }

  ghost predicate Listed(free: seq<Frame>, f: Frame) { f in free }

  ghost predicate LinkedAt(m: Mem, free: seq<Frame>, k: nat) {
    k < |free| && free[k] in m && m[free[k]][0] == LinkTo(free, k + 1)
  }

  /** The list at head runs through exactly the free frames, each once. */
  ghost predicate FreeList(m: Mem, u: Uses, head: nat, free: seq<Frame>) {
    && m.Keys == u.Keys && head == LinkTo(free, 0) && Distinct(free)
    && (forall f {:trigger Listed(free, f)} :: Listed(free, f) <==> f in u && u[f].Free?)
    && (forall k {:trigger LinkedAt(m, free, k)} | 0 <= k < |free| :: LinkedAt(m, free, k))
  }

  lemma EmptyFree(m: Mem, u: Uses, free: seq<Frame>)
    requires FreeList(m, u, 0, free)
    ensures free == [] && forall f | f in u :: !u[f].Free?
  {
    forall f | f in u ensures !u[f].Free? {
      assert !Listed(free, f);
    }
  }

  lemma PopFree(m: Mem, u: Uses, head: nat, free: seq<Frame>)
    requires FreeList(m, u, head, free) && free != []
    ensures free[0] in u && u[free[0]].Free?
    ensures FreeList(m, u[free[0] := Held], m[free[0]][0], free[1..])
  {
    assert Listed(free, free[0]);
    assert LinkedAt(m, free, 0);
    var rest, w := free[1..], u[free[0] := Held];
    forall f ensures Listed(rest, f) <==> f in w && w[f].Free? {
      assert Listed(free, f) <==> f == free[0] || Listed(rest, f);
    }
    forall k | 0 <= k < |rest| ensures LinkedAt(m, rest, k) {
      assert LinkedAt(m, free, k + 1);
    }
  }

  lemma PushFree(m: Mem, u: Uses, head: nat, free: seq<Frame>, f: Frame, p: Page)
    requires FreeList(m, u, head, free) && f in u && !u[f].Free? && p[0] == head
    ensures FreeList(m[f := p], u[f := Free], Addr(f), [f] + free)
  {
    var more, n, w := [f] + free, m[f := p], u[f := Free];
    assert more[1..] == free && !Listed(free, f);
    forall g ensures Listed(more, g) <==> g in w && w[g].Free? {
      assert Listed(more, g) <==> g == f || Listed(free, g);
    }
    forall k | 0 <= k < |more| ensures LinkedAt(n, more, k) {
      if k > 0 {
        assert LinkedAt(m, free, k - 1) && Listed(free, free[k - 1]);
      }
    }
  }

  /** Writing pages that are not free, and handing them on, keeps the list. */
  lemma KeepFree(m: Mem, u: Uses, head: nat, free: seq<Frame>, n: Mem, v: Uses)
    requires FreeList(m, u, head, free) && n.Keys == v.Keys == u.Keys
    requires forall f | f in u :: (u[f].Free? <==> v[f].Free?) && (u[f].Free? ==> n[f] == m[f])
    ensures FreeList(n, v, head, free)
  {
    forall f ensures Listed(free, f) <==> f in v && v[f].Free? {
      assert Listed(free, f) <==> f in u && u[f].Free?;
    }
    forall k | 0 <= k < |free| ensures LinkedAt(n, free, k) {
      assert LinkedAt(m, free, k) && Listed(free, free[k]);
    }
  }
}
