/** The bump allocator behind file buffers: no limit, no free. */
module BareHeap {
  import opened Machine32

  const HEAP_BASE: nat := 0x8100_0000
  const TWO64: nat := 0x1_0000_0000_0000_0000

  /** A size rounded up to eight. The mask is a 32-bit constant, so it also drops the high half of a
      64-bit size. */
  function Rounded(n: nat): (r: nat)
    requires n < TWO64
    ensures r % 8 == 0 && r < TWO32
  {
    8 * ((n + 7) % TWO64 / 8 % 0x2000_0000)
  }

  /** The space set aside covers the request exactly when it is at most 2^32 - 8 bytes. */
  lemma Covers(n: nat)
    requires n < TWO64
    ensures Rounded(n) >= n <==> n <= 0xFFFF_FFF8
  {
    assert n <= 0xFFFF_FFF8 ==> (n + 7) % TWO64 / 8 < 0x2000_0000;
  }

  /** Within that limit it is the least multiple of eight that does. */
  lemma LeastMultiple(n: nat, m: nat)
    requires n <= m <= 0xFFFF_FFF8
    ensures n <= Rounded(n) && Rounded(n) % 8 == 0 && (m % 8 == 0 ==> Rounded(n) <= m)
  {
    Covers(n);
    assert (n + 7) % TWO64 / 8 == (n + 7) / 8;
  }

  class Heap {
    var ptr: nat

    constructor ()
      ensures ptr == 0x8100_0000
    {
      ptr := HEAP_BASE;
    }

    method Malloc(n: nat) returns (p: nat)
      requires n < TWO64
      modifies this
      ensures p == old(ptr) && ptr == p + Taken(n)
    {
      p := ptr;
      if n != 0 {
        ptr := ptr + Rounded(n);
      }
    }
  }

  function Taken(n: nat): nat
    requires n < TWO64
  {
    if n == 0 then 0 else Rounded(n)
  }

  /** A file's buffer has a byte more than the file, added in 32 bits: its block holds all of it exactly up
      to this size. */
  lemma BufferCovers(size: nat)
    requires IsU32(size)
    ensures Taken(U32(size + 1)) >= size + 1 <==> size <= 0xFFFF_FFF7
  {
    if size < TWO32 - 1 {
      Covers(size + 1);
    }
  }

  /** Where the blocks of a run of requests start. */
  function Start(ns: seq<nat>, k: nat): nat
    requires k <= |ns| && forall j :: 0 <= j < |ns| ==> ns[j] < TWO64
  {
    if k == 0 then HEAP_BASE else Start(ns, k - 1) + Taken(ns[k - 1])
  }

  /** Blocks are aligned, in order and do not overlap, whatever the run of coverable requests. */
  lemma {:induction false} BlocksApart(ns: seq<nat>, i: nat, k: nat)
    requires forall j :: 0 <= j < |ns| ==> ns[j] <= 0xFFFF_FFF8
    requires i < k <= |ns|
    ensures 0x8100_0000 <= Start(ns, i) && Start(ns, i) % 8 == 0 && Start(ns, i) + ns[i] <= Start(ns, k)
    decreases k
  {
    Aligned(ns, i);
    if k == i + 1 {
      Covers(ns[i]);
    } else {
      BlocksApart(ns, i, k - 1);
    }
  }

  lemma {:induction false} Aligned(ns: seq<nat>, k: nat)
    requires k <= |ns| && forall j :: 0 <= j < |ns| ==> ns[j] < TWO64
    ensures 0x8100_0000 <= Start(ns, k) && Start(ns, k) % 8 == 0
    decreases k
  {
    if k > 0 {
      Aligned(ns, k - 1);
      SumAligned(Start(ns, k - 1), Taken(ns[k - 1]));
    }
  }

  lemma SumAligned(a: nat, b: nat)
    requires a % 8 == 0 && b % 8 == 0
    ensures (a + b) % 8 == 0
  {
  }
}
