/** The FAT16 operations as the program performs them: reading and writing the memory image in place. */
module Fat16Volume {
  import opened Options
  import opened Machine32
  import opened Bits
  import opened Fat16
  import opened Fat16Bytes

  /** The program's own byte-wise comparison, as far as equality goes. */
  method FieldIs(ram: array<Byte>, p: nat, b: seq<Byte>) returns (same: bool)
    requires p + |b| <= ram.Length
    ensures same <==> ram[p..p + |b|] == b
  {
    var i := 0;
    while i < |b|
      invariant 0 <= i <= |b| && ram[p..p + i] == b[..i]
    {
      if ram[p + i] != b[i] {
        assert ram[p..p + |b|][i] != b[i];
        return false;
      }
      i := i + 1;
    }
    assert b[..i] == b;
    return true;
  }

  class Volume {
    const ram: array<Byte>
    var f: Layout

    ghost predicate Valid()
      reads this
    {
      ram.Length == SPACE && f.Valid()
    }

    /** Mounts whatever image the memory holds; a bad signature is only worth a warning. */
    constructor Mount(ram: array<Byte>)
      requires ram.Length == SPACE
      ensures Valid() && this.ram == ram && f == Mounted(ram[..])
      ensures f.bps == ram[0x0B] as int + 256 * ram[0x0C] as int && f.spc == ram[0x0D]
      ensures f.rsvd == ram[0x0E] as int + 256 * ram[0x0F] as int && f.nfats == ram[0x10]
      ensures f.rdcnt == ram[0x11] as int + 256 * ram[0x12] as int
      ensures f.spf == ram[0x16] as int + 256 * ram[0x17] as int
      ensures f.fatSec == f.rsvd && f.rootSec == f.rsvd + f.nfats * f.spf
      ensures f.bps > 0 ==> f.dataSec == f.rootSec + (32 * f.rdcnt + f.bps - 1) / f.bps
    {
      this.ram := ram;
      var bps := ram[0x0B] as int + 256 * (ram[0x0C] as int);
      var rsvd := ram[0x0E] as int + 256 * (ram[0x0F] as int);
      var rdcnt := ram[0x11] as int + 256 * (ram[0x12] as int);
      var spf := ram[0x16] as int + 256 * (ram[0x17] as int);
      SmallProduct(ram[0x10], spf);
      var rootSec := rsvd + ram[0x10] as int * spf;
      var rootBytes := rdcnt * 32;
      var rootSecs := DivU(U32(rootBytes + bps - 1), bps);
      f := Layout(bps, ram[0x0D], rsvd, ram[0x10], rdcnt, spf, rsvd, rootSec, U32(rootSec + rootSecs));
      new;
      if bps > 0 {
        DataStart(ram[..]);
      }
    }

    method Memset(p: nat, n: nat)
      requires ram.Length == SPACE && p + n <= SPACE
      modifies ram
      ensures ram[..] == Paste(old(ram[..]), p, Zeros(n))
    {
      var i := 0;
      while i < n
        invariant 0 <= i <= n
        invariant forall k :: 0 <= k < SPACE ==> ram[k] == if p <= k < p + i then 0 else old(ram[k])
      {
        ram[p + i] := 0;
        i := i + 1;
      }
    }

    method Memcpy(p: nat, b: seq<Byte>)
      requires ram.Length == SPACE && p + |b| <= SPACE
      modifies ram
      ensures ram[..] == Paste(old(ram[..]), p, b)
    {
      var i := 0;
      while i < |b|
        invariant 0 <= i <= |b|
        invariant forall k :: 0 <= k < SPACE ==> ram[k] == if p <= k < p + i then b[k - p] else old(ram[k])
      {
        ram[p + i] := b[i];
        i := i + 1;
      }
    }

    method Write16(p: nat, v: nat)
      requires ram.Length == SPACE && p + 2 <= SPACE && v < 0x1_0000
      modifies ram
      ensures ram[..] == Paste(old(ram[..]), p, Bytes16(v))
    {
      ram[p], ram[p + 1] := v % 256, v / 256;
    }

    method Read16(p: nat) returns (v: nat)
      requires ram.Length == SPACE && p + 2 <= SPACE
      ensures v == Word(ram[..], p)
    {
      v := ram[p] as int + 256 * (ram[p + 1] as int);
    }

    /** Marks cluster `c` end-of-chain in both FATs and clears its data. */
    method Take(c: nat)
      requires Valid() && c < 0x1_0000
      modifies ram
      ensures Valid() && ram[..] == Allocated(old(ram[..]), f, c)
    {
      Write16(Fat1(f) + 2 * c, 0xFFFF);
      if f.nfats > 1 {
        Write16(Fat2(f) + 2 * c, 0xFFFF);
      }
      Memset(Cluster(f, c), ClusterBytes(f));
    }

    /** Takes the lowest free cluster; 0 when there is none. */
    method Alloc() returns (c: nat)
      requires Valid()
      modifies ram
      ensures Valid() && c == FirstFree(old(ram[..]), f, 2)
      ensures ram[..] == if c == 0 then old(ram[..]) else Allocated(old(ram[..]), f, c)
    {
      c := 2;
      while c < CLUSTER_END
        invariant 2 <= c <= CLUSTER_END
        invariant ram[..] == old(ram[..])
        invariant FirstFree(old(ram[..]), f, 2) == FirstFree(old(ram[..]), f, c)
        decreases CLUSTER_END - c
      {
        var w := Read16(Fat1(f) + 2 * c);
        if w == 0 {
          Take(c);
          return;
        }
        c := c + 1;
      }
      c := 0;
    }

    method FindEntry(name: Name) returns (r: Option<nat>)
      requires Valid()
      ensures r == Find(ram[..], f, name, 0)
    {
      var i := 0;
      while i < f.rdcnt
        invariant 0 <= i <= f.rdcnt
        invariant Find(ram[..], f, name, 0) == Find(ram[..], f, name, i)
      {
        var e := Slot(f, i);
        if ram[e] == 0x00 {
          break;
        }
        if ram[e] != 0xE5 && And(ram[e + 11], 0x08) == 0 {
          var same := FieldIs(ram, e, name);
          assert ram[e..e + 11] == ram[..][e..e + 11];
          if same {
            return Some(i);
          }
        }
        i := i + 1;
      }
      return None;
    }

    method FreeEntry() returns (r: Option<nat>)
      requires Valid()
      ensures r == FirstSlot(ram[..], f, 0)
    {
      var i := 0;
      while i < f.rdcnt
        invariant 0 <= i <= f.rdcnt
        invariant FirstSlot(ram[..], f, 0) == FirstSlot(ram[..], f, i)
      {
        var e := Slot(f, i);
        if ram[e] == 0x00 || ram[e] == 0xE5 {
          return Some(i);
        }
        i := i + 1;
      }
      return None;
    }

    /** Creates a file: a directory entry and one cluster, or nothing at all. */
    method CreateFile(name: Name) returns (r: Created)
      requires Valid()
      modifies ram
      ensures Valid() && r == Outcome(old(ram[..]), f)
      ensures ram[..] == Create(old(ram[..]), f, name)
    {
      var i := FreeEntry();
      if i == None {
        return Full;
      }
      var c := Alloc();
      if c == 0 {
        return Full;
      }
      WriteEntry(Slot(f, i.value), name, c);
      r := Created(i.value, c);
    }

    method WriteEntry(e: nat, name: Name, c: nat)
      requires ram.Length == SPACE && e + 32 <= SPACE && c < 0x1_0000
      modifies ram
      ensures ram[..] == Paste(old(ram[..]), e, NewEntry(name, c))
    {
      Memset(e, 32);
      Memcpy(e, name);
      ram[e + 11] := 0x20;
      Write16(e + 26, c);
    }

    /** Stores a file's size in the directory entry at `e`. */
    method SetSize(e: nat, n: nat)
      requires Valid() && e + 32 <= SPACE && IsU32(n)
      modifies ram
      ensures Valid() && ram[..] == Paste(old(ram[..]), e + 28, Bytes32(n))
      ensures n == ram[e + 28] as int + 0x100 * ram[e + 29] as int + 0x1_0000 * ram[e + 30] as int
                   + 0x100_0000 * ram[e + 31] as int
    {
      var b0, b1, b2, b3 := n % 256, n / 256 % 256, n / 0x1_0000 % 256, n / 0x100_0000;
      SizeBytes(n, b0, b1, b2, b3);
      ram[e + 28], ram[e + 29] := b0, b1;
      ram[e + 30], ram[e + 31] := b2, b3;
    }
  }

  /** A 32-bit size is its four bytes, the lowest first. */
  lemma SizeBytes(n: nat, b0: nat, b1: nat, b2: nat, b3: nat)
    requires IsU32(n) && b0 == n % 256 && b1 == n / 256 % 256 && b2 == n / 0x1_0000 % 256 && b3 == n / 0x100_0000
    ensures b3 < 256 && Bytes32(n) == [b0, b1, b2, b3]
    ensures n == b0 + 0x100 * b1 + 0x1_0000 * b2 + 0x100_0000 * b3
  {
    assert n / 0x1_0000 == n / 256 / 256 && n / 0x100_0000 == n / 256 / 256 / 256;
  }
}
