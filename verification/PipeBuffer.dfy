/** The ring buffer of pipe.c, with 32-bit counters that wrap. */
module PipeBuffer {
  import opened Blocks

  const PIPESIZE: nat := 512

  datatype Buffer = Buffer(data: seq<Byte>, nread: nat, nwrite: nat)

  /** `p->nwrite == p->nread + PIPESIZE`, in 32-bit arithmetic. */
  predicate Full(b: Buffer) { b.nwrite == (b.nread + PIPESIZE) % UINT }

  predicate Empty(b: Buffer) { b.nread == b.nwrite }

  /** `p->data[p->nwrite++ % PIPESIZE] = c` */
  function Put(b: Buffer, c: Byte): (r: Buffer)
    requires |b.data| == PIPESIZE
  {
    Buffer(b.data[b.nwrite % PIPESIZE := c], b.nread, (b.nwrite + 1) % UINT)
  }

  /** `p->data[p->nread % PIPESIZE]` */
  function Head(b: Buffer): (c: Byte)
    requires |b.data| == PIPESIZE
  {
    b.data[b.nread % PIPESIZE]
  }

  /** `p->nread++` */
  function Drop(b: Buffer): (r: Buffer) { b.(nread := (b.nread + 1) % UINT) }

  /** written is everything ever put in, of which the first `taken` bytes have been taken out; the
      buffer holds the rest. */
  ghost predicate Holds(b: Buffer, written: seq<Byte>, taken: nat) {
    && |b.data| == PIPESIZE
    && taken <= |written| <= taken + PIPESIZE
    && b.nread == taken % UINT && b.nwrite == |written| % UINT
    && (forall k | taken <= k < |written| :: b.data[k % PIPESIZE] == written[k])
  }

  /** PIPESIZE divides the range of the counters. */
  lemma CounterIndex(k: nat)
    ensures k % UINT % PIPESIZE == k % PIPESIZE
  {
  }

  lemma CounterNext(k: nat)
    ensures (k % UINT + 1) % UINT == (k + 1) % UINT
    ensures (k % UINT + PIPESIZE) % UINT == (k + PIPESIZE) % UINT
  {
  }

  /** Counters less than the range apart are equal only if they were before wrapping. */
  lemma CounterEqual(j: nat, k: nat)
    requires j <= k <= j + PIPESIZE && j % UINT == k % UINT
    ensures j == k
  {
  }

  /** The difference of wrapped counters is the difference of the counters. */
  lemma CounterApart(j: nat, k: nat, i: nat)
    requires j <= k <= j + PIPESIZE && i <= k - j
    ensures (k % UINT - j % UINT) % UINT == k - j && (j % UINT + i) % UINT == (j + i) % UINT
  {
  }

  lemma IndexEqual(j: nat, k: nat)
    requires j <= k < j + PIPESIZE && j % PIPESIZE == k % PIPESIZE
    ensures j == k
  {
  }

  /** The tests of the code, in spite of wrapping, are about how many bytes are inside. */
  lemma Tests(b: Buffer, written: seq<Byte>, taken: nat)
    requires Holds(b, written, taken)
    ensures Full(b) <==> |written| == taken + PIPESIZE
    ensures Empty(b) <==> |written| == taken
  {
    CounterNext(taken);
    if Full(b) { CounterEqual(|written|, taken + PIPESIZE); }
    if Empty(b) { CounterEqual(taken, |written|); }
  }

  /** The bytes inside, oldest first, as the two counters and the ring give them. */
  ghost function Contents(b: Buffer): (bytes: seq<Byte>)
    requires |b.data| == PIPESIZE
  {
    seq((b.nwrite - b.nread) % UINT, k requires 0 <= k => b.data[(b.nread + k) % UINT % PIPESIZE])
  }

  lemma ContentsAre(b: Buffer, written: seq<Byte>, taken: nat)
    requires Holds(b, written, taken)
    ensures Contents(b) == written[taken..]
  {
    var c, rest := Contents(b), written[taken..];
    CounterApart(taken, |written|, 0);
    forall k | 0 <= k < |rest| ensures c[k] == rest[k] {
      CounterApart(taken, |written|, k);
      CounterIndex(taken + k);
    }
  }

  lemma PutHolds(b: Buffer, written: seq<Byte>, taken: nat, c: Byte)
    requires Holds(b, written, taken) && !Full(b)
    ensures Holds(Put(b, c), written + [c], taken)
  {
    Tests(b, written, taken);
    CounterNext(|written|);
    CounterIndex(|written|);
    var w := written + [c];
    forall k | taken <= k < |w|
      ensures Put(b, c).data[k % PIPESIZE] == w[k]
    {
      if k < |written| && k % PIPESIZE == |written| % PIPESIZE { IndexEqual(k, |written|); }
    }
  }

  lemma TakeHolds(b: Buffer, written: seq<Byte>, taken: nat)
    requires Holds(b, written, taken) && !Empty(b)
    ensures taken < |written| && Head(b) == written[taken] && Holds(Drop(b), written, taken + 1)
  {
    Tests(b, written, taken);
    CounterNext(taken);
    CounterIndex(taken);
  }

  /** struct pipe, and the copying loops of pipewrite and piperead. */
  class Pipe {
    const data: array<Byte>
    var nread: nat
    var nwrite: nat
    ghost var written: seq<Byte>
    ghost var taken: nat

    ghost function Buf(): (b: Buffer)
      reads this, data
    {
      Buffer(data[..], nread, nwrite)
    }

    ghost predicate Valid()
      reads this, data
    {
      Holds(Buf(), written, taken)
    }

    constructor ()
      ensures Valid() && fresh(data) && written == [] && taken == 0
    {
      data := new Byte[PIPESIZE](_ => 0);
      nread, nwrite, written, taken := 0, 0, [], 0;
    }

    /** pipewrite's loop from byte i on, up to where it must sleep or is done. */
    method Fill(addr: seq<Byte>, i: nat) returns (j: nat)
      requires Valid() && i <= |addr|
      modifies this, data
      ensures Valid() && taken == old(taken) && i <= j <= |addr|
      ensures written == old(written) + addr[i..j]
      ensures j < |addr| ==> |written| == taken + PIPESIZE
    {
      j := i;
      while j < |addr|
        invariant i <= j <= |addr| && Valid() && taken == old(taken) && written == old(written) + addr[i..j]
      {
        ghost var b := Buf();
        Tests(b, written, taken);
        if nwrite == (nread + PIPESIZE) % UINT { return; }
        PutHolds(b, written, taken, addr[j]);
        data[nwrite % PIPESIZE] := addr[j];
        nwrite := (nwrite + 1) % UINT;
        written := written + [addr[j]];
        assert Buf() == Put(b, addr[j]);
        j := j + 1;
      }
    }

    /** piperead's copying loop: at most n bytes, the oldest ones. */
    method Drain(n: nat) returns (addr: seq<Byte>)
      requires Valid()
      modifies this
      ensures Valid() && written == old(written) && taken == old(taken) + |addr|
      ensures addr == written[old(taken)..taken]
      ensures |addr| == if n < |written| - old(taken) then n else |written| - old(taken)
    {
      addr := [];
      while |addr| < n
        invariant Valid() && written == old(written) && taken == old(taken) + |addr| && |addr| <= n
        invariant addr == written[old(taken)..taken]
      {
        ghost var b := Buf();
        Tests(b, written, taken);
        if nread == nwrite { return; }
        TakeHolds(b, written, taken);
        addr := addr + [data[nread % PIPESIZE]];
        nread := (nread + 1) % UINT;
        taken := taken + 1;
        assert Buf() == Drop(b);
      }
    }
  }
}
