/** A FAT16 volume held in memory: its layout, its FATs, its root directory. Addresses are offsets
    from the partition base; every operation is a function of the bytes found there. */
module Fat16 {
  import opened Options
  import opened Machine32
  import opened Bits

  /** Addresses are a 32-bit offset plus an index into a FAT, a directory or a cluster; the memory
      behind the partition base holds them all. */
  const SPACE: nat := TWO32 + 0x100_0000

  type Ram = m: seq<Byte> | |m| == SPACE ghost witness seq(SPACE, i => 0)

  /** The mounted volume's parameters: the boot sector's fields and three start sectors. */
  datatype Layout = Layout(bps: nat, spc: nat, rsvd: nat, nfats: nat, rdcnt: nat, spf: nat,
                           fatSec: nat, rootSec: nat, dataSec: nat)
  {
    /** The widths of the fields. */
    predicate Valid()
    {
      bps < 0x1_0000 && spc < 0x100 && rsvd < 0x1_0000 && nfats < 0x100 && rdcnt < 0x1_0000 && spf < 0x1_0000
      && IsU32(fatSec) && IsU32(rootSec) && IsU32(dataSec)
    }
  }

  // ---- bytes ----

  function Word(m: Ram, p: nat): (w: nat)
    requires p + 2 <= SPACE
    ensures w < 0x1_0000
  {
    m[p] as int + 256 * (m[p + 1] as int)
  }

  function Word32(m: Ram, p: nat): (w: nat)
    requires p + 4 <= SPACE
    ensures IsU32(w)
  {
    Word(m, p) + 0x1_0000 * Word(m, p + 2)
  }

  function Bytes16(v: nat): (b: seq<Byte>)
    requires v < 0x1_0000
  {
    [v % 256, v / 256]
  }

  function Bytes32(v: nat): (b: seq<Byte>)
    requires IsU32(v)
  {
    [v % 256, v / 256 % 256, v / 0x1_0000 % 256, v / 0x100_0000]
  }

  /** The memory after `b` is stored at `p`. */
  function Paste(m: Ram, p: nat, b: seq<Byte>): Ram
    requires p + |b| <= SPACE
  {
    seq(SPACE, k requires 0 <= k < SPACE => if p <= k < p + |b| then b[k - p] else m[k])
  }

  // ---- addresses ----

  function Sector(f: Layout, s: int): (p: nat)
    ensures p < TWO32
  {
    U32(s * f.bps)
  }

  function Fat1(f: Layout): (p: nat)
    ensures p < TWO32
  {
    Sector(f, f.fatSec)
  }

  function Fat2(f: Layout): (p: nat)
    ensures p < TWO32
  {
    Sector(f, U32(f.fatSec + f.spf))
  }

  function Slot(f: Layout, i: nat): (p: nat)
    requires f.Valid() && i < 0x1_0000
    ensures p + 32 <= SPACE
  {
    Sector(f, f.rootSec) + 32 * i
  }

  function Cluster(f: Layout, c: nat): (p: nat)
    ensures p < TWO32
  {
    Sector(f, U32(f.dataSec + U32(U32(c - 2) * f.spc)))
  }

  function ClusterBytes(f: Layout): (n: nat)
    requires f.Valid()
    ensures n < 0x100_0000
  {
    SmallProduct(f.spc, f.bps);
    f.spc * f.bps
  }

  lemma SmallProduct(spc: nat, bps: nat)
    requires spc < 0x100 && bps < 0x1_0000
    ensures 0 <= spc * bps < 0x100_0000
  {
    assert spc * bps <= 0xFF * bps;
  }

  /** The bytes of a cluster. */
  function Data(m: Ram, f: Layout, c: nat): (d: seq<Byte>)
    requires f.Valid()
    ensures |d| == ClusterBytes(f)
  {
    m[Cluster(f, c)..Cluster(f, c) + ClusterBytes(f)]
  }

  // ---- mounting ----

  /** Unsigned 32-bit division; by zero it gives all ones (RISC-V "M" extension). */
  function DivU(a: nat, b: nat): nat { if b == 0 then TWO32 - 1 else a / b }

  function Mounted(m: Ram): (f: Layout)
    ensures f.Valid()
  {
    var bps := Word(m, 0x0B);
    var rsvd := Word(m, 0x0E);
    var spf := Word(m, 0x16);
    var rdcnt := Word(m, 0x11);
    SmallProduct(m[0x10], spf);
    var rootSec := rsvd + m[0x10] as int * spf;
    Layout(bps, m[0x0D], rsvd, m[0x10], rdcnt, spf, rsvd, rootSec,
           U32(rootSec + DivU(U32(rdcnt * 32 + bps - 1), bps)))
  }

  // ---- the FAT ----

  const CLUSTER_END: nat := 0xFFF7

  function Fat(m: Ram, f: Layout, c: nat): (w: nat)
    requires c < 0x1_0000
    ensures w < 0x1_0000
  {
    Word(m, Fat1(f) + 2 * c)
  }

  /** The lowest free cluster from `c` on, or 0. */
  function FirstFree(m: Ram, f: Layout, c: nat): (r: nat)
    requires c <= CLUSTER_END
    ensures r < CLUSTER_END
    decreases CLUSTER_END - c
  {
    if c >= CLUSTER_END then 0
    else if Fat(m, f, c) == 0 then c
    else FirstFree(m, f, c + 1)
  }

  ghost predicate NoneFree(m: Ram, f: Layout, lo: nat, hi: nat)
    requires hi <= 0x1_0000
  {
    forall c :: lo <= c < hi ==> Fat(m, f, c) != 0
  }

  lemma {:induction false} FirstFreeIsLowest(m: Ram, f: Layout, c: nat)
    requires 2 <= c <= CLUSTER_END
    ensures var r := FirstFree(m, f, c);
      if r == 0 then NoneFree(m, f, c, CLUSTER_END)
      else c <= r < CLUSTER_END && Fat(m, f, r) == 0 && NoneFree(m, f, c, r)
    decreases CLUSTER_END - c
  {
    if c < CLUSTER_END && Fat(m, f, c) != 0 {
      FirstFreeIsLowest(m, f, c + 1);
    }
  }

  /** Memory after cluster `c` is allocated: end-of-chain in both FATs, data zeroed. */
  function Allocated(m: Ram, f: Layout, c: nat): Ram
    requires f.Valid() && c < 0x1_0000
  {
    var one := Paste(m, Fat1(f) + 2 * c, Bytes16(0xFFFF));
    var two := if f.nfats > 1 then Paste(one, Fat2(f) + 2 * c, Bytes16(0xFFFF)) else one;
    Paste(two, Cluster(f, c), Zeros(ClusterBytes(f)))
  }

  // ---- the root directory ----

  type Name = s: seq<Byte> | |s| == 11 witness [32, 32, 32, 32, 32, 32, 32, 32, 32, 32, 32]

  function First(m: Ram, f: Layout, i: nat): Byte
    requires f.Valid() && i < 0x1_0000
  {
    m[Slot(f, i)]
  }

  predicate IsLabel(m: Ram, f: Layout, i: nat)
    requires f.Valid() && i < 0x1_0000
  {
    And(m[Slot(f, i) + 11], 0x08) != 0
  }

  function NameAt(m: Ram, f: Layout, i: nat): Name
    requires f.Valid() && i < 0x1_0000
  {
    m[Slot(f, i)..Slot(f, i) + 11]
  }

  /** Does slot `i` hold a file or directory called `name`? */
  predicate Matches(m: Ram, f: Layout, name: Name, i: nat)
    requires f.Valid() && i < 0x1_0000
  {
    First(m, f, i) != 0xE5 && !IsLabel(m, f, i) && NameAt(m, f, i) == name
  }

  /** The slot at or after `i` where the search for `name` ends, if it succeeds. */
  function Find(m: Ram, f: Layout, name: Name, i: nat): (r: Option<nat>)
    requires f.Valid() && i <= f.rdcnt
    ensures r.Some? ==> i <= r.value < f.rdcnt
    decreases f.rdcnt - i
  {
    if i >= f.rdcnt || First(m, f, i) == 0x00 then None
    else if Matches(m, f, name, i) then Some(i)
    else Find(m, f, name, i + 1)
  }

  predicate IsFreeSlot(m: Ram, f: Layout, i: nat)
    requires f.Valid() && i < 0x1_0000
  {
    First(m, f, i) == 0x00 || First(m, f, i) == 0xE5
  }

  function FirstSlot(m: Ram, f: Layout, i: nat): (r: Option<nat>)
    requires f.Valid() && i <= f.rdcnt
    ensures r.Some? ==> i <= r.value < f.rdcnt && IsFreeSlot(m, f, r.value)
    decreases f.rdcnt - i
  {
    if i >= f.rdcnt then None
    else if IsFreeSlot(m, f, i) then Some(i)
    else FirstSlot(m, f, i + 1)
  }

  /** A fresh directory entry: archive attribute, first cluster, size zero. */
  function NewEntry(name: Name, c: nat): (e: seq<Byte>)
    requires c < 0x1_0000
    ensures |e| == 32
  {
    name + [0x20] + Zeros(14) + Bytes16(c) + Zeros(4)
  }

  function DirCluster(m: Ram, f: Layout, i: nat): (c: nat)
    requires f.Valid() && i < 0x1_0000
    ensures c < 0x1_0000
  {
    Word(m, Slot(f, i) + 26)
  }

  function DirSize(m: Ram, f: Layout, i: nat): (n: nat)
    requires f.Valid() && i < 0x1_0000
    ensures IsU32(n)
  {
    Word32(m, Slot(f, i) + 28)
  }

  // ---- creating a file ----

  datatype Created = Full | Created(slot: nat, cluster: nat)

  function CreateAt(m: Ram, f: Layout, name: Name, i: nat, c: nat): Ram
    requires f.Valid() && i < 0x1_0000 && c < 0x1_0000
  {
    Paste(Allocated(m, f, c), Slot(f, i), NewEntry(name, c))
  }

  function Outcome(m: Ram, f: Layout): (r: Created)
    requires f.Valid()
    ensures r.Created? ==> r.slot < f.rdcnt && r.cluster < CLUSTER_END
  {
    var i := FirstSlot(m, f, 0);
    var c := FirstFree(m, f, 2);
    if i == None || c == 0 then Full else Created(i.value, c)
  }

  function Create(m: Ram, f: Layout, name: Name): Ram
    requires f.Valid()
  {
    var r := Outcome(m, f);
    if r == Full then m else CreateAt(m, f, name, r.slot, r.cluster)
  }
}
