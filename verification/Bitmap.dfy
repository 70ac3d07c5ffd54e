/** The free-block bitmap: bit bi of a bitmap block is bit bi % 8 of byte bi / 8. */
module Bitmap {
  import opened Blocks

  const BPB: nat := 4096

  function Pow2(k: nat): (r: nat)
    ensures r > 0
  {
    if k == 0 then 1 else 2 * Pow2(k - 1)
  }

  /** v & (1 << k) */
  predicate Bit(v: nat, k: nat) { if k == 0 then v % 2 == 1 else Bit(v / 2, k - 1) }

  lemma Halves(v: nat, p: nat)
    requires p > 0
    ensures v / 2 / p == v / (2 * p)
  {
    var q := v / (2 * p);
    assert v == 2 * p * q + v % (2 * p);
    assert v / 2 == p * q + v % (2 * p) / 2;
    Quotient(v / 2, p, q, v % (2 * p) / 2);
  }

  lemma Quotient(v: nat, p: nat, q: nat, r: nat)
    requires p > 0 && v == p * q + r && r < p
    ensures v / p == q
  {
    var w := v / p;
    assert w < q ==> p * (w + 1) <= p * q;
    assert q < w ==> p * (q + 1) <= p * w;
  }

  /** Bit k has the weight of the k-th power of two. */
  lemma {:induction false} BitWeight(v: nat, k: nat)
    ensures Bit(v, k) <==> v / Pow2(k) % 2 == 1
    decreases k
  {
    if k > 0 {
      BitWeight(v / 2, k - 1);
      Halves(v, Pow2(k - 1));
    }
  }

  /** v | (1 << k) */
  function OrBit(v: nat, k: nat): (r: nat)
    ensures forall j: nat :: Bit(r, j) == (j == k || Bit(v, j))
    ensures forall m: nat | k < m && v < Pow2(m) :: r < Pow2(m)
  {
    if k == 0 then v / 2 * 2 + 1 else OrBit(v / 2, k - 1) * 2 + v % 2
  }

  /** v & ~(1 << k) */
  function ClearBit(v: nat, k: nat): (r: nat)
    ensures r <= v
    ensures forall j: nat :: Bit(r, j) == (j != k && Bit(v, j))
  {
    if k == 0 then v / 2 * 2 else ClearBit(v / 2, k - 1) * 2 + v % 2
  }

  predicate BitOf(b: Block, bi: nat)
    requires bi < BPB
  {
    Bit(b[bi / 8], bi % 8)
  }

  function SetBitOf(b: Block, bi: nat): (r: Block)
    requires bi < BPB
    ensures forall bj: nat | bj < BPB :: BitOf(r, bj) == (bj == bi || BitOf(b, bj))
  {
    assert Pow2(8) == 256;
    b[bi / 8 := OrBit(b[bi / 8], bi % 8)]
  }

  function ClearBitOf(b: Block, bi: nat): (r: Block)
    requires bi < BPB
    ensures forall bj: nat | bj < BPB :: BitOf(r, bj) == (bj != bi && BitOf(b, bj))
  {
    b[bi / 8 := ClearBit(b[bi / 8], bi % 8)]
  }
}
