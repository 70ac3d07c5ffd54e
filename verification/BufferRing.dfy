/** The doubly linked list of buffers of bio.c, most recently used first.

    Buffers are the numbers below `size`; the list head is the number `size`.
 */
module BufferRing {

  /** s without its element at k. */
  function Without(s: seq<nat>, k: nat): (r: seq<nat>)
    requires k < |s|
    ensures |r| == |s| - 1
    ensures forall j | 0 <= j < |r| :: r[j] == if j < k then s[j] else s[j + 1]
  {
    s[..k] + s[k + 1..]
  }

  ghost predicate Distinct(s: seq<nat>) { forall j, k | 0 <= j < k < |s| :: s[j] != s[k] }

  /** The k-th node going round from the head; the head itself is at both ends. */
  function Node(size: nat, order: seq<nat>, k: nat): (b: nat)
    requires k <= |order| + 1
  {
    if k == 0 || k == |order| + 1 then size else order[k - 1]
  }

  ghost predicate IsOrder(size: nat, order: seq<nat>) {
    Distinct(order) && forall k | 0 <= k < |order| :: order[k] < size
  }

  /** next and prev form one ring through the head in the order `order`. */
  ghost predicate IsRing(size: nat, order: seq<nat>, next: seq<nat>, prev: seq<nat>) {
    && |next| == size + 1 && |prev| == size + 1
    && IsOrder(size, order)
    && (forall k: nat | k <= |order| :: next[Node(size, order, k)] == Node(size, order, k + 1))
    && (forall k: nat | 1 <= k <= |order| + 1 :: prev[Node(size, order, k)] == Node(size, order, k - 1))
  }

  lemma NodesDistinct(size: nat, order: seq<nat>, j: nat, k: nat)
    requires IsOrder(size, order) && j <= |order| && k <= |order|
    requires Node(size, order, j) == Node(size, order, k) || Node(size, order, j + 1) == Node(size, order, k + 1)
    ensures j == k
  {
  }

  lemma WithoutNode(size: nat, order: seq<nat>, at: nat, k: nat)
    requires at < |order| && k <= |order|
    ensures Node(size, Without(order, at), k) == Node(size, order, if k <= at then k else k + 1)
  {
  }

  /** Taking node b out of the ring. */
  lemma Unlinked(size: nat, order: seq<nat>, next: seq<nat>, prev: seq<nat>, at: nat)
    requires IsRing(size, order, next, prev) && at < |order|
    ensures var b := order[at];
            b <= size && next[b] <= size && prev[b] <= size
            && IsRing(size, Without(order, at), next[prev[b] := next[b]], prev[next[b] := prev[b]])
  {
    var b := order[at];
    assert next[Node(size, order, at + 1)] == Node(size, order, at + 2);
    assert prev[Node(size, order, at + 1)] == Node(size, order, at);
    var o := Without(order, at);
    var n', p' := next[prev[b] := next[b]], prev[next[b] := prev[b]];
    assert IsOrder(size, o);
    forall k: nat | k <= |o|
      ensures n'[Node(size, o, k)] == Node(size, o, k + 1)
    {
      WithoutNode(size, order, at, k);
      WithoutNode(size, order, at, k + 1);
      var j := if k <= at then k else k + 1;
      assert next[Node(size, order, j)] == Node(size, order, j + 1);
      if Node(size, order, j) == Node(size, order, at) { NodesDistinct(size, order, j, at); }
    }
    forall k: nat | 1 <= k <= |o| + 1
      ensures p'[Node(size, o, k)] == Node(size, o, k - 1)
    {
      WithoutNode(size, order, at, k);
      WithoutNode(size, order, at, k - 1);
      var j := if k <= at then k else k + 1;
      assert prev[Node(size, order, j)] == Node(size, order, j - 1);
      if Node(size, order, j) == Node(size, order, at + 2) { NodesDistinct(size, order, j - 1, at + 1); }
    }
  }

  /** Putting node b right after the head. */
  lemma PushedFront(size: nat, order: seq<nat>, next: seq<nat>, prev: seq<nat>, b: nat)
    requires IsRing(size, order, next, prev) && b < size && b !in order
    ensures next[size] <= size && next[size] != b
    ensures IsRing(size, [b] + order, next[b := next[size]][size := b], prev[b := size][next[size] := b])
  {
    var o := [b] + order;
    assert next[Node(size, order, 0)] == Node(size, order, 1);
    var n', p' := next[b := next[size]][size := b], prev[b := size][next[size] := b];
    assert forall k: nat | 1 <= k <= |o| + 1 :: Node(size, o, k) == if k == 1 then b else Node(size, order, k - 1);
    forall k: nat | k <= |o|
      ensures n'[Node(size, o, k)] == Node(size, o, k + 1)
    {
      if k >= 2 { assert Node(size, order, k - 1) != b; }
    }
    forall k: nat | 1 <= k <= |o| + 1
      ensures p'[Node(size, o, k)] == Node(size, o, k - 1)
    {
      if k >= 3 {
        assert Node(size, order, k - 1) != b;
        assert Node(size, order, k - 1) != Node(size, order, 1);
      }
    }
  }

  lemma MovedMembers(order: seq<nat>, at: nat)
    requires at < |order|
    ensures forall x :: x in [order[at]] + Without(order, at) <==> x in order
  {
    assert order == order[..at] + [order[at]] + order[at + 1..];
  }

  class Ring {
    const size: nat
    const next: array<nat>
    const prev: array<nat>
    ghost var order: seq<nat>

    ghost predicate Valid()
      reads this, next, prev
    {
      next != prev && IsRing(size, order, next[..], prev[..])
    }

    /** binit. */
    constructor (size: nat)
      ensures Valid() && this.size == size && fresh(next) && fresh(prev)
      ensures |order| == size && forall b: nat | b < size :: b in order
    {
      this.size := size;
      next := new nat[size + 1];
      prev := new nat[size + 1];
      order := [];
      new;
      prev[size] := size;
      next[size] := size;
      var b := 0;
      while b < size
        invariant b <= size && Valid() && |order| == b
        invariant forall x: nat :: x in order <==> x < b
      {
        PushedFront(size, order, next[..], prev[..], b);
        PushFront(b);
        b := b + 1;
      }
    }

    /** Link b in right after the head. */
    method PushFront(b: nat)
      requires Valid() && b < size && b !in order
      modifies this`order, next, prev
      ensures Valid() && order == [b] + old(order)
    {
      PushedFront(size, order, next[..], prev[..], b);
      ghost var n0: seq<nat>, p0: seq<nat> := next[..], prev[..];
      next[b] := next[size];
      prev[b] := size;
      prev[next[size]] := b;
      next[size] := b;
      order := [b] + order;
      assert next[..] == n0[b := n0[size]][size := b];
      assert prev[..] == p0[b := size][n0[size] := b];
    }

    /** The relinking of brelse: the buffer becomes the most recently used. */
    method MoveToFront(b: nat) returns (ghost at: nat)
      requires Valid() && b in order
      modifies this`order, next, prev
      ensures Valid() && at < |old(order)| && old(order)[at] == b
      ensures order == [b] + Without(old(order), at)
    {
      at :| 0 <= at < |order| && order[at] == b;
      Unlinked(size, order, next[..], prev[..], at);
      ghost var n0: seq<nat>, p0: seq<nat> := next[..], prev[..];
      prev[next[b]] := prev[b];
      next[prev[b]] := next[b];
      order := Without(order, at);
      assert prev[..] == p0[n0[b] := p0[b]];
      assert next[..] == n0[p0[b] := n0[b]];
      PushFront(b);
    }
  }
}
