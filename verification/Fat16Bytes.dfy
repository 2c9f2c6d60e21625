/** The volume byte by byte: where mounting finds the boot sector's fields, where everything lies, and what a lookup,
    a creation and a directory entry are in bytes. */
module Fat16Bytes {
  import opened Options
  import opened Machine32
  import opened Bits
  import opened Fat16
  import opened Fat16Theorems

  // ---- the boot sector ----

  /** The boot sector's six fields, little-endian. */
  predicate Encodes(m: Ram, bps: nat, spc: nat, rsvd: nat, nfats: nat, rdcnt: nat, spf: nat)
  {
    && bps < 0x1_0000 && m[0x0B] as int == bps % 256 && m[0x0C] as int == bps / 256
    && spc < 0x100 && m[0x0D] as int == spc
    && rsvd < 0x1_0000 && m[0x0E] as int == rsvd % 256 && m[0x0F] as int == rsvd / 256
    && nfats < 0x100 && m[0x10] as int == nfats
    && rdcnt < 0x1_0000 && m[0x11] as int == rdcnt % 256 && m[0x12] as int == rdcnt / 256
    && spf < 0x1_0000 && m[0x16] as int == spf % 256 && m[0x17] as int == spf / 256
  }

  /** Mounting reads back every six fields that were written, and puts the FATs behind the reserved sectors, the root
      directory behind the FATs, and the data behind as many sectors as the root directory needs. */
  lemma MountReads(m: Ram, bps: nat, spc: nat, rsvd: nat, nfats: nat, rdcnt: nat, spf: nat)
    requires Encodes(m, bps, spc, rsvd, nfats, rdcnt, spf)
    ensures var f := Mounted(m);
      f.bps == bps && f.spc == spc && f.rsvd == rsvd && f.nfats == nfats && f.rdcnt == rdcnt && f.spf == spf
      && f.fatSec == rsvd && f.rootSec == rsvd + nfats * spf
      && (bps > 0 ==> f.dataSec == rsvd + nfats * spf + (32 * rdcnt + bps - 1) / bps)
  {
    BackTogether(bps);
    BackTogether(rsvd);
    BackTogether(rdcnt);
    BackTogether(spf);
    if bps > 0 {
      DataStart(m);
    }
  }

  lemma BackTogether(x: nat)
    ensures x % 256 + 256 * (x / 256) == x
  {
  }

  lemma DataStart(m: Ram)
    requires Mounted(m).bps > 0
    ensures var f := Mounted(m); f.dataSec == f.rootSec + (32 * f.rdcnt + f.bps - 1) / f.bps
  {
    var f := Mounted(m);
    MountedFields(m);
    SmallProduct(f.nfats, f.spf);
    var roots := RootSectors(f.rdcnt, f.bps);
    Quotient(f.rdcnt * 32 + f.bps - 1, f.bps, roots);
    Rounded(f.rootSec, roots);
  }

  // ---- where everything lies ----

  /** The first data sector. */
  function DataSector(rsvd: nat, fats: nat, rdcnt: nat, bps: nat): nat
    requires bps > 0
  {
    rsvd + fats + (32 * rdcnt + bps - 1) / bps
  }

  /** On every volume that fits 32-bit addresses, with `fats` sectors of FATs in all: the FATs, each of its 16-bit
      entries, the 32-byte slots and the clusters, in bytes from the start of the partition. */
  lemma Places(m: Ram, bps: nat, spc: nat, rsvd: nat, nfats: nat, rdcnt: nat, spf: nat, limit: nat)
    requires Encodes(m, bps, spc, rsvd, nfats, rdcnt, spf) && bps > 0 && spc > 0 && nfats > 0
    requires 2 < limit <= 0xFFF7 && Fits(Mounted(m), limit)
    ensures var f, data := Mounted(m), DataSector(rsvd, nfats * spf, rdcnt, bps);
      Fat1(f) == rsvd * bps && (nfats > 1 ==> Fat2(f) == (rsvd + spf) * bps)
      && (forall i :: 0 <= i < rdcnt ==> Slot(f, i) == (rsvd + nfats * spf) * bps + 32 * i)
      && ClusterBytes(f) == spc * bps
      && forall c :: 2 <= c < limit ==> Cluster(f, c) == (data + (c - 2) * spc) * bps
  {
    var f := Mounted(m);
    MountReads(m, bps, spc, rsvd, nfats, rdcnt, spf);
    var fats, roots := MountedInSequence(m);
    StartBelow(f.dataSec, limit - 2, spc, bps);
    var p1, p2, pr := Regions(rsvd, nfats, spf, bps, fats, roots);
    PlaceOf(f, f.rsvd, p1);
    PlaceOf(f, f.rootSec, pr);
    if nfats > 1 {
      SecondPlace(f, p2);
    }
    forall c | 2 <= c < limit ensures Cluster(f, c) == (f.dataSec + (c - 2) * spc) * bps {
      ClusterPlace(f, limit, c);
    }
  }

  /** A FAT entry, and a directory entry's first cluster and size, in bytes. */
  lemma EntryBytes(m: Ram, f: Layout, c: nat, i: nat)
    requires f.Valid() && c < 0x1_0000 && i < 0x1_0000
    ensures Fat(m, f, c) == m[Fat1(f) + 2 * c] as int + 256 * m[Fat1(f) + 2 * c + 1] as int
    ensures DirCluster(m, f, i) == m[Slot(f, i) + 26] as int + 256 * m[Slot(f, i) + 27] as int
    ensures var e := Slot(f, i);
      DirSize(m, f, i)
      == m[e + 28] as int + 0x100 * m[e + 29] as int + 0x1_0000 * m[e + 30] as int + 0x100_0000 * m[e + 31] as int
  {
  }

  // ---- lookups ----

  lemma LabelBit(b: Byte)
    ensures And(b, 0x08) != 0 <==> b / 8 % 2 == 1
  {
    assert Pow2(3) == 8;
    AndBit(b, 3);
    ShrIs(b, 3, 8);
  }

  /** Slot `i` neither ends the directory nor is it deleted, a volume label, or under another name. */
  predicate SlotNamed(m: Ram, f: Layout, name: Name, i: nat)
    requires f.Valid() && i < 0x1_0000
  {
    var e := Slot(f, i);
    m[e] != 0x00 && m[e] != 0xE5 && m[e + 11] / 8 % 2 == 0 && m[e..e + 11] == name
  }

  /** A lookup answers a slot exactly when it is the first of that name, and the directory does not end before it. */
  lemma FindsFirstNamed(m: Ram, f: Layout, name: Name, k: nat)
    requires f.Valid()
    ensures Find(m, f, name, 0) == Some(k) <==>
      k < f.rdcnt && SlotNamed(m, f, name, k)
      && forall i :: 0 <= i < k ==> m[Slot(f, i)] != 0x00 && !SlotNamed(m, f, name, i)
  {
    FindFrom(m, f, name, 0, k);
  }

  lemma {:induction false} FindFrom(m: Ram, f: Layout, name: Name, j: nat, k: nat)
    requires f.Valid() && j <= f.rdcnt
    ensures Find(m, f, name, j) == Some(k) <==>
      j <= k < f.rdcnt && SlotNamed(m, f, name, k) && PassedOver(m, f, name, j, k)
    decreases f.rdcnt - j
  {
    if j < f.rdcnt {
      LabelBit(m[Slot(f, j) + 11]);
      assert Matches(m, f, name, j) && First(m, f, j) != 0x00 <==> SlotNamed(m, f, name, j);
      FindFrom(m, f, name, j + 1, k);
      if k < f.rdcnt {
        PassesOne(m, f, name, j, k);
      }
    }
  }

  ghost predicate PassedOver(m: Ram, f: Layout, name: Name, j: nat, k: nat)
    requires f.Valid() && k < 0x1_0000
  {
    forall i :: j <= i < k ==> m[Slot(f, i)] != 0x00 && !SlotNamed(m, f, name, i)
  }

  lemma PassesOne(m: Ram, f: Layout, name: Name, j: nat, k: nat)
    requires f.Valid() && j < 0x1_0000 && k < 0x1_0000
    ensures j < k ==> (PassedOver(m, f, name, j, k)
                       <==> m[Slot(f, j)] != 0x00 && !SlotNamed(m, f, name, j) && PassedOver(m, f, name, j + 1, k))
  {
  }

  // ---- creations ----

  /** Free slots start with 0x00 or 0xE5; free clusters have a zero FAT entry. */
  predicate SlotFree(m: Ram, f: Layout, i: nat)
    requires f.Valid() && i < 0x1_0000
  {
    m[Slot(f, i)] == 0x00 || m[Slot(f, i)] == 0xE5
  }

  predicate ClusterFree(m: Ram, f: Layout, c: nat)
    requires c < 0x1_0000
  {
    m[Fat1(f) + 2 * c] == 0 && m[Fat1(f) + 2 * c + 1] == 0
  }

  /** The first free slot and the first free cluster from 2 to 0xFFF6. */
  ghost predicate FirstFrees(m: Ram, f: Layout, i: nat, c: nat)
    requires f.Valid()
  {
    && i < f.rdcnt && SlotFree(m, f, i) && (forall j :: 0 <= j < i ==> !SlotFree(m, f, j))
    && 2 <= c < 0xFFF7 && ClusterFree(m, f, c) && (forall d :: 2 <= d < c ==> !ClusterFree(m, f, d))
  }

  /** A creation takes them; and it fails, changing nothing, exactly when there is no such slot or no such cluster. */
  lemma CreatesFirst(m: Ram, f: Layout, name: Name)
    requires f.Valid()
    ensures forall i: nat, c: nat :: Outcome(m, f) == Created(i, c) <==> FirstFrees(m, f, i, c)
    ensures Outcome(m, f) == Full <==>
      (forall i :: 0 <= i < f.rdcnt ==> !SlotFree(m, f, i)) || (forall c :: 2 <= c < 0xFFF7 ==> !ClusterFree(m, f, c))
    ensures Outcome(m, f) == Full ==> Create(m, f, name) == m
  {
    FirstSlotIsFirst(m, f, 0);
    FirstFreeIsLowest(m, f, 2);
    var i, c := FirstSlot(m, f, 0), FirstFree(m, f, 2);
    forall j | 0 <= j < f.rdcnt ensures SlotFree(m, f, j) <==> IsFreeSlot(m, f, j) {
    }
    forall d | 2 <= d < 0xFFF7 ensures ClusterFree(m, f, d) <==> Fat(m, f, d) == 0 {
    }
  }

  /** The bytes of a new entry: name, archive attribute, zeros, first cluster, zeros. */
  predicate NewEntryByte(name: Name, c: nat, k: nat, b: Byte)
  {
    if k < 11 then b == name[k] else if k == 11 then b == 0x20
    else if k == 26 then b as int == c % 256 else if k == 27 then b as int == c / 256 else b == 0
  }

  /** Address `x` belongs to what a creation writes. */
  predicate Written(f: Layout, i: nat, c: nat, x: nat)
    requires f.Valid() && i < 0x1_0000 && c < 0x1_0000
  {
    || Fat1(f) + 2 * c <= x < Fat1(f) + 2 * c + 2 || (f.nfats > 1 && Fat2(f) + 2 * c <= x < Fat2(f) + 2 * c + 2)
    || Cluster(f, c) <= x < Cluster(f, c) + ClusterBytes(f) || Slot(f, i) <= x < Slot(f, i) + 32
  }

  /** The new entry's bytes, from address `e` on. */
  ghost predicate EntryWritten(m: Ram, e: nat, name: Name, c: nat)
    requires e + 32 <= SPACE
  {
    var b := m[e..e + 32];
    forall k :: 0 <= k < 32 ==> NewEntryByte(name, c, k, b[k])
  }

  /** After a creation on any laid-out volume: both FATs hold 0xFFFF for the cluster, its bytes are zero, the slot
      holds the entry, and every other byte is as before. */
  lemma CreatedBytes(m: Ram, f: Layout, limit: nat, name: Name, i: nat, c: nat, m': Ram)
    requires Takes(m, f, limit, i, c) && m' == Create(m, f, name)
    ensures m'[Fat1(f) + 2 * c] == 0xFF && m'[Fat1(f) + 2 * c + 1] == 0xFF
    ensures f.nfats > 1 ==> m'[Fat2(f) + 2 * c] == 0xFF && m'[Fat2(f) + 2 * c + 1] == 0xFF
    ensures forall x :: Cluster(f, c) <= x < Cluster(f, c) + ClusterBytes(f) ==> m'[x] == 0
    ensures EntryWritten(m', Slot(f, i), name, c)
    ensures forall x :: 0 <= x < SPACE && !Written(f, i, c, x) ==> m'[x] == m[x]
  {
    TakesLowestFree(m, f, limit, i, c);
    NewFat(m, f, limit, name, i, c);
    NewData(m, f, limit, name, i, c);
    DataBytes(m', f, c);
    NewEntryBytes(Allocated(m, f, c), Slot(f, i), name, c);
    OtherBytes(m, f, name, i, c, m');
  }

  lemma DataBytes(m: Ram, f: Layout, c: nat)
    requires f.Valid() && Data(m, f, c) == Zeros(ClusterBytes(f))
    ensures forall x :: Cluster(f, c) <= x < Cluster(f, c) + ClusterBytes(f) ==> m[x] == 0
  {
    forall x | Cluster(f, c) <= x < Cluster(f, c) + ClusterBytes(f) ensures m[x] == 0 {
      assert m[x] == Data(m, f, c)[x - Cluster(f, c)];
    }
  }

  lemma OtherBytes(m: Ram, f: Layout, name: Name, i: nat, c: nat, m': Ram)
    requires f.Valid() && i < 0x1_0000 && c < 0x1_0000 && m' == CreateAt(m, f, name, i, c)
    ensures forall x :: 0 <= x < SPACE && !Written(f, i, c, x) ==> m'[x] == m[x]
  {
    forall x | 0 <= x < SPACE && !Written(f, i, c, x) ensures m'[x] == m[x] {
      CreateFrame(m, f, name, i, c, x);
    }
  }

  lemma NewEntryBytes(m: Ram, e: nat, name: Name, c: nat)
    requires e + 32 <= SPACE && c < 0x1_0000
    ensures EntryWritten(Paste(m, e, NewEntry(name, c)), e, name, c)
  {
    PasteSlice(m, e, NewEntry(name, c));
    EntryFields(name, c);
    var b := NewEntry(name, c);
    forall k | 0 <= k < 32 ensures NewEntryByte(name, c, k, b[k]) {
      assert k < 11 ==> b[k] == b[..11][k];
    }
  }
}
