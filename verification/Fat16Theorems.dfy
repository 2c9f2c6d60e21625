/** What creating a file does to a well-formed FAT16 volume, and when it goes wrong. */
module Fat16Theorems {
  import opened Options
  import opened Machine32
  import opened Bits
  import opened Fat16

  // ---- where the regions lie ----

  function FatBytes(f: Layout): nat { f.spf * f.bps }

  /** The FATs hold `limit` entries, and FATs, root directory and the clusters below `limit` follow
      one another without overlap. */
  ghost predicate Laid(f: Layout, limit: nat)
  {
    f.Valid() && f.nfats > 0 && 2 <= limit <= CLUSTER_END && 2 * limit <= FatBytes(f)
    && (f.nfats > 1 ==> Fat1(f) + FatBytes(f) <= Fat2(f) && Fat2(f) + FatBytes(f) <= Slot(f, 0))
    && Fat1(f) + FatBytes(f) <= Slot(f, 0)
    && (forall c :: 2 <= c < limit ==> Slot(f, 0) + 32 * f.rdcnt <= Cluster(f, c))
    && (forall c, d :: 2 <= c < d < limit ==> Cluster(f, c) + ClusterBytes(f) <= Cluster(f, d))
  }

  /** A file's clusters: each FAT entry names the next, the last one marks the end. */
  ghost predicate Chain(m: Ram, f: Layout, limit: nat, cs: seq<nat>)
    requires limit <= CLUSTER_END
  {
    |cs| > 0 && (forall k :: 0 <= k < |cs| ==> 2 <= cs[k] < limit)
    && (forall k :: 0 <= k < |cs| - 1 ==> Fat(m, f, cs[k]) == cs[k + 1])
    && Fat(m, f, cs[|cs| - 1]) >= CLUSTER_END
  }

  /** After the first end marker there are only end markers. */
  ghost predicate EndMarked(m: Ram, f: Layout)
    requires f.Valid()
  {
    forall i, j :: 0 <= i < j < f.rdcnt && First(m, f, i) == 0 ==> First(m, f, j) == 0
  }

  /** The second FAT repeats the first. */
  ghost predicate Mirrored(m: Ram, f: Layout, limit: nat)
    requires limit <= CLUSTER_END
  {
    f.nfats > 1 ==> forall c :: 0 <= c < limit ==> Fat(m, f, c) == Word(m, Fat2(f) + 2 * c)
  }

  // ---- bytes that stay ----

  predicate Within(k: int, p: nat, n: nat) { p <= k < p + n }

  lemma CreateFrame(m: Ram, f: Layout, name: Name, i: nat, c: nat, k: nat)
    requires f.Valid() && i < 0x1_0000 && c < 0x1_0000 && k < SPACE
    requires !Within(k, Fat1(f) + 2 * c, 2) && !(f.nfats > 1 && Within(k, Fat2(f) + 2 * c, 2))
    requires !Within(k, Cluster(f, c), ClusterBytes(f)) && !Within(k, Slot(f, i), 32)
    ensures CreateAt(m, f, name, i, c)[k] == m[k]
  {
  }

  /** Before the root directory, only the FAT entries of `c` change. */
  lemma OtherByte(m: Ram, f: Layout, limit: nat, name: Name, i: nat, c: nat, k: nat)
    requires Laid(f, limit) && i < f.rdcnt && 2 <= c < limit && k < Slot(f, 0)
    requires !Within(k, Fat1(f) + 2 * c, 2) && !(f.nfats > 1 && Within(k, Fat2(f) + 2 * c, 2))
    ensures CreateAt(m, f, name, i, c)[k] == m[k]
  {
    CreateFrame(m, f, name, i, c, k);
  }

  lemma OtherFat(m: Ram, f: Layout, limit: nat, name: Name, i: nat, c: nat, d: nat)
    requires Laid(f, limit) && i < f.rdcnt && 2 <= c < limit && d < limit && d != c
    ensures Fat(CreateAt(m, f, name, i, c), f, d) == Fat(m, f, d)
    ensures f.nfats > 1 ==>
      Word(CreateAt(m, f, name, i, c), Fat2(f) + 2 * d) == Word(m, Fat2(f) + 2 * d)
  {
    OtherByte(m, f, limit, name, i, c, Fat1(f) + 2 * d);
    OtherByte(m, f, limit, name, i, c, Fat1(f) + 2 * d + 1);
    if f.nfats > 1 {
      OtherByte(m, f, limit, name, i, c, Fat2(f) + 2 * d);
      OtherByte(m, f, limit, name, i, c, Fat2(f) + 2 * d + 1);
    }
  }

  lemma NewFat(m: Ram, f: Layout, limit: nat, name: Name, i: nat, c: nat)
    requires Laid(f, limit) && i < f.rdcnt && 2 <= c < limit
    ensures Fat(CreateAt(m, f, name, i, c), f, c) == 0xFFFF
    ensures f.nfats > 1 ==> Word(CreateAt(m, f, name, i, c), Fat2(f) + 2 * c) == 0xFFFF
  {
  }

  lemma OtherSlot(m: Ram, f: Layout, limit: nat, name: Name, i: nat, c: nat, j: nat, k: nat)
    requires Laid(f, limit) && i < f.rdcnt && 2 <= c < limit && j < f.rdcnt && j != i && k < 32
    ensures CreateAt(m, f, name, i, c)[Slot(f, j) + k] == m[Slot(f, j) + k]
  {
    CreateFrame(m, f, name, i, c, Slot(f, j) + k);
  }

  lemma OtherData(m: Ram, f: Layout, limit: nat, name: Name, i: nat, c: nat, d: nat)
    requires Laid(f, limit) && i < f.rdcnt && 2 <= c < limit && 2 <= d < limit && d != c
    ensures Data(CreateAt(m, f, name, i, c), f, d) == Data(m, f, d)
  {
    forall k | Within(k, Cluster(f, d), ClusterBytes(f)) ensures CreateAt(m, f, name, i, c)[k] == m[k] {
      CreateFrame(m, f, name, i, c, k);
    }
    SameSlice(CreateAt(m, f, name, i, c), m, Cluster(f, d), ClusterBytes(f));
  }

  lemma SameSlice(m: Ram, m': Ram, p: nat, n: nat)
    requires p + n <= SPACE && forall k :: Within(k, p, n) ==> m[k] == m'[k]
    ensures m[p..p + n] == m'[p..p + n]
  {
    var x, y := m[p..p + n], m'[p..p + n];
    forall j | 0 <= j < n ensures x[j] == y[j] {
      assert Within(p + j, p, n);
    }
  }

  lemma NewData(m: Ram, f: Layout, limit: nat, name: Name, i: nat, c: nat)
    requires Laid(f, limit) && i < f.rdcnt && 2 <= c < limit
    ensures Data(CreateAt(m, f, name, i, c), f, c) == Zeros(ClusterBytes(f))
  {
    var a := Allocated(m, f, c);
    assert Data(a, f, c) == Zeros(ClusterBytes(f));
    forall k | Within(k, Cluster(f, c), ClusterBytes(f)) ensures CreateAt(m, f, name, i, c)[k] == a[k] {
    }
    SameSlice(CreateAt(m, f, name, i, c), a, Cluster(f, c), ClusterBytes(f));
  }

  lemma NewSlot(m: Ram, f: Layout, name: Name, i: nat, c: nat)
    requires f.Valid() && i < f.rdcnt && c < 0x1_0000
    ensures var m' := CreateAt(m, f, name, i, c);
      NameAt(m', f, i) == name && m'[Slot(f, i) + 11] == 0x20
      && DirCluster(m', f, i) == c && DirSize(m', f, i) == 0
  {
    var a := Allocated(m, f, c);
    var e := NewEntry(name, c);
    EntryFields(name, c);
    PasteSlice(a, Slot(f, i), e);
  }

  lemma EntryFields(name: Name, c: nat)
    requires c < 0x1_0000
    ensures var e := NewEntry(name, c);
      e[..11] == name && e[11] == 0x20 && e[26] == c % 256 && e[27] == c / 256
      && e[28] == 0 && e[29] == 0 && e[30] == 0 && e[31] == 0
  {
    assert NewEntry(name, c)[..11] == name;
  }

  lemma PasteSlice(m: Ram, p: nat, b: seq<Byte>)
    requires p + |b| <= SPACE
    ensures Paste(m, p, b)[p..p + |b|] == b
    ensures forall k :: 0 <= k < |b| ==> Paste(m, p, b)[p + k] == b[k]
    ensures forall k :: 0 <= k <= |b| ==> Paste(m, p, b)[p..p + k] == b[..k]
  {
  }

  // ---- the mounted layout ----

  /** No address of the first `limit` clusters wraps around 32 bits. */
  predicate Fits(f: Layout, limit: nat) { 2 <= limit && (f.dataSec + (limit - 2) * f.spc) * f.bps <= TWO32 }

  /** The mounted start sectors, and where they lie in bytes. */
  ghost predicate InSequence(f: Layout, fats: nat, roots: nat)
  {
    f.Valid() && f.bps > 0 && f.spc > 0 && f.nfats > 0 && fats == f.nfats * f.spf
    && f.fatSec == f.rsvd && f.rootSec == f.rsvd + fats && f.dataSec == f.rsvd + fats + roots
    && f.dataSec < 0x300_0000 && 32 * f.rdcnt <= roots * f.bps
  }

  lemma MountedFields(m: Ram)
    ensures var f := Mounted(m);
      f.fatSec == f.rsvd && f.rootSec == f.rsvd + f.nfats * f.spf
      && f.dataSec == U32(f.rootSec + DivU(U32(f.rdcnt * 32 + f.bps - 1), f.bps))
  {
  }

  /** The root directory takes the least number of sectors that holds it. */
  lemma MountedInSequence(m: Ram) returns (fats: nat, roots: nat)
    requires var f := Mounted(m); f.bps > 0 && f.spc > 0 && f.nfats > 0
    ensures InSequence(Mounted(m), fats, roots)
    ensures roots * Mounted(m).bps < 32 * Mounted(m).rdcnt + Mounted(m).bps
  {
    var f := Mounted(m);
    MountedFields(m);
    fats, roots := SectorCounts(f);
  }

  lemma SectorCounts(f: Layout) returns (fats: nat, roots: nat)
    requires f.Valid() && f.bps > 0 && f.spc > 0 && f.nfats > 0
    requires f.fatSec == f.rsvd && f.rootSec == f.rsvd + f.nfats * f.spf
    requires f.dataSec == U32(f.rootSec + DivU(U32(f.rdcnt * 32 + f.bps - 1), f.bps))
    ensures InSequence(f, fats, roots) && roots * f.bps < 32 * f.rdcnt + f.bps
  {
    SmallProduct(f.nfats, f.spf);
    fats := f.nfats * f.spf;
    roots := RootSectors(f.rdcnt, f.bps);
    Quotient(f.rdcnt * 32 + f.bps - 1, f.bps, roots);
    Rounded(f.rootSec, roots);
  }

  lemma Rounded(rootSec: nat, roots: nat)
    requires rootSec < 0x200_0000 && roots < 0x40_0000
    ensures U32(rootSec + roots) == rootSec + roots
  {
  }

  lemma RootSectors(rdcnt: nat, bps: nat) returns (roots: nat)
    requires rdcnt < 0x1_0000 && 0 < bps < 0x1_0000
    ensures roots == (rdcnt * 32 + bps - 1) / bps < 0x40_0000
    ensures 32 * rdcnt <= roots * bps < 32 * rdcnt + bps
  {
    var r: nat;
    roots, r := Divided(rdcnt * 32 + bps - 1, bps);
    RoundedUp(rdcnt * 32, bps, roots, r);
  }

  lemma Divided(t: nat, b: nat) returns (q: nat, r: nat)
    requires b > 0
    ensures q == t / b && t == b * q + r && r < b
  {
    q, r := t / b, t % b;
  }

  lemma Quotient(t: nat, b: nat, q: nat)
    requires t < TWO32 && b > 0 && q == t / b
    ensures DivU(U32(t), b) == q
  {
    assert U32(t) == t;
  }

  lemma RoundedUp(n: nat, b: nat, q: nat, r: nat)
    requires b > 0 && n + b - 1 == b * q + r && r < b
    ensures n <= q * b < n + b && q <= n + b - 1
  {
    assert q * b == b * q;
    Scaled(1, b, q);
  }

  /** Mounting puts the regions in sequence: for every boot sector whose FATs hold `limit` entries,
      as long as the volume fits 32-bit addresses. */
  lemma MountedIsLaid(m: Ram, limit: nat)
    requires var f := Mounted(m);
      f.bps > 0 && f.spc > 0 && f.nfats > 0 && 2 < limit <= CLUSTER_END && 2 * limit <= FatBytes(f) && Fits(f, limit)
    ensures Laid(Mounted(m), limit)
  {
    var fats, roots := MountedInSequence(m);
    SequenceIsLaid(Mounted(m), fats, roots, limit);
  }

  lemma SequenceIsLaid(f: Layout, fats: nat, roots: nat, limit: nat)
    requires InSequence(f, fats, roots) && 2 < limit <= CLUSTER_END && 2 * limit <= FatBytes(f) && Fits(f, limit)
    ensures Laid(f, limit)
  {
    StartBelow(f.dataSec, limit - 2, f.spc, f.bps);
    TablesPlace(f, fats, roots);
    forall c | 2 <= c < limit ensures Slot(f, 0) + 32 * f.rdcnt <= Cluster(f, c) {
      ClusterPlace(f, limit, c);
      Grows(f.dataSec, c - 2, f.spc, f.bps);
    }
    forall c, d | 2 <= c < d < limit ensures Cluster(f, c) + ClusterBytes(f) <= Cluster(f, d) {
      ClusterPlace(f, limit, c);
      ClusterPlace(f, limit, d);
      Apart(f.dataSec, c - 2, d - 2, f.spc, f.bps);
    }
  }

  lemma TablesPlace(f: Layout, fats: nat, roots: nat)
    requires InSequence(f, fats, roots) && f.dataSec * f.bps < TWO32
    ensures Fat1(f) + FatBytes(f) <= Slot(f, 0) && Slot(f, 0) + 32 * f.rdcnt <= f.dataSec * f.bps
    ensures f.nfats > 1 ==> Fat1(f) + FatBytes(f) <= Fat2(f) && Fat2(f) + FatBytes(f) <= Slot(f, 0)
  {
    var p1, p2, pr := Regions(f.rsvd, f.nfats, f.spf, f.bps, fats, roots);
    PlaceOf(f, f.rsvd, p1);
    PlaceOf(f, f.rootSec, pr);
    if f.nfats > 1 {
      SecondPlace(f, p2);
    }
  }

  lemma SecondPlace(f: Layout, p: nat)
    requires f.fatSec + f.spf < TWO32 && p == (f.fatSec + f.spf) * f.bps && p < TWO32
    ensures Fat2(f) == p
  {
    PlaceOf(f, f.fatSec + f.spf, p);
  }

  lemma PlaceOf(f: Layout, s: nat, p: nat)
    requires p == s * f.bps && p < TWO32
    ensures Sector(f, s) == p
  {
  }

  lemma ClusterPlace(f: Layout, limit: nat, c: nat)
    requires f.Valid() && f.bps > 0 && f.spc > 0 && f.dataSec < 0x300_0000
    requires Fits(f, limit) && 2 <= c < limit <= CLUSTER_END
    ensures Cluster(f, c) == (f.dataSec + (c - 2) * f.spc) * f.bps
  {
    var run, p := ClusterBounds(f.dataSec, c - 2, limit - 2, f.spc, f.bps);
    ClusterIs(f, c, run, p);
  }

  lemma ClusterBounds(base: nat, c: nat, n: nat, spc: nat, bps: nat) returns (run: nat, p: nat)
    requires c < n < 0x1_0000 && 0 < spc < 0x100 && 0 < bps && (base + n * spc) * bps <= TWO32
    ensures run == c * spc < 0x100_0000 && p == (base + c * spc) * bps && p < TWO32
  {
    SmallProduct(spc, c);
    run, p := c * spc, (base + c * spc) * bps;
    Apart(base, c, n, spc, bps);
    Positive(spc, bps);
  }

  lemma ClusterIs(f: Layout, c: nat, run: nat, p: nat)
    requires 2 <= c < 0x1_0000 && run == (c - 2) * f.spc && run < 0x100_0000 && f.dataSec < 0x300_0000
    requires p == (f.dataSec + run) * f.bps && p < TWO32
    ensures Cluster(f, c) == p
  {
    assert U32(c - 2) == c - 2;
    SectorOfRun(f.dataSec, run);
    PlaceOf(f, f.dataSec + run, p);
  }

  lemma SectorOfRun(base: nat, run: nat)
    requires base < 0x300_0000 && run < 0x100_0000
    ensures U32(base + U32(run)) == base + run
  {
  }

  lemma Positive(a: nat, b: nat)
    requires a > 0 && b > 0
    ensures a * b > 0
  {
  }

  lemma StartBelow(base: nat, n: nat, spc: nat, bps: nat)
    requires n > 0 && spc > 0 && bps > 0 && (base + n * spc) * bps <= TWO32
    ensures base * bps < TWO32
  {
    Apart(base, 0, n, spc, bps);
    assert (base + 0 * spc) * bps == base * bps;
    Positive(spc, bps);
  }

  lemma Grows(base: nat, n: nat, spc: nat, bps: nat)
    ensures base * bps <= (base + n * spc) * bps
  {
    Scaled(0, n, spc);
    Scaled(base, base + n * spc, bps);
  }

  lemma Scaled(a: nat, b: nat, k: nat)
    requires a <= b
    ensures 0 <= a * k <= b * k
  {
    assert (b - a) * k >= 0;
    assert b * k == a * k + (b - a) * k;
  }

  /** Where the first FAT, the second FAT and the root directory start, in bytes. */
  lemma Regions(rsvd: nat, nfats: nat, spf: nat, bps: nat, fats: nat, roots: nat)
    returns (p1: nat, p2: nat, pr: nat)
    requires fats == nfats * spf && nfats > 0
    ensures p1 == rsvd * bps && p2 == (rsvd + spf) * bps && pr == (rsvd + fats) * bps
    ensures p2 == p1 + spf * bps && p2 <= pr && (nfats > 1 ==> p2 + spf * bps <= pr)
    ensures pr + roots * bps == (rsvd + fats + roots) * bps
  {
    p1, p2, pr := rsvd * bps, (rsvd + spf) * bps, (rsvd + fats) * bps;
    Scaled(1, nfats, spf);
    Scaled(rsvd + spf, rsvd + fats, bps);
    if nfats > 1 {
      Scaled(2, nfats, spf);
      assert (rsvd + spf + spf) * bps == (rsvd + spf) * bps + spf * bps;
      Scaled(rsvd + spf + spf, rsvd + fats, bps);
    }
  }

  lemma Apart(base: nat, c: nat, d: nat, spc: nat, bps: nat)
    requires c < d
    ensures (base + c * spc) * bps + spc * bps <= (base + d * spc) * bps
  {
    Scaled(c + 1, d, spc);
    assert (c + 1) * spc == c * spc + spc;
    Scaled(base + c * spc + spc, base + d * spc, bps);
    assert (base + c * spc + spc) * bps == (base + c * spc) * bps + spc * bps;
  }

  // ---- creating a file on a well-formed volume ----

  /** The next file gets slot `i` and cluster `c`, below `limit`. */
  ghost predicate Takes(m: Ram, f: Layout, limit: nat, i: nat, c: nat)
  {
    Laid(f, limit) && Outcome(m, f) == Created(i, c) && c < limit
  }

  /** So it does on a well-formed volume. */
  ghost predicate Ready(m: Ram, f: Layout, limit: nat, i: nat, c: nat)
  {
    Takes(m, f, limit, i, c) && EndMarked(m, f) && Mirrored(m, f, limit)
  }

  /** The cluster taken is the lowest free one, and no chain runs through it. */
  lemma TakesLowestFree(m: Ram, f: Layout, limit: nat, i: nat, c: nat)
    requires Takes(m, f, limit, i, c)
    ensures 2 <= c && Fat(m, f, c) == 0 && NoneFree(m, f, 2, c)
    ensures forall cs :: Chain(m, f, limit, cs) ==> c !in cs
  {
    FirstFreeIsLowest(m, f, 2);
    forall cs | Chain(m, f, limit, cs) ensures c !in cs {
      ChainNotFree(m, f, limit, cs, c);
    }
  }

  lemma ChainNotFree(m: Ram, f: Layout, limit: nat, cs: seq<nat>, c: nat)
    requires limit <= CLUSTER_END && Chain(m, f, limit, cs) && c < limit && Fat(m, f, c) == 0
    ensures c !in cs
  {
    forall k | 0 <= k < |cs| ensures cs[k] != c {
      assert k < |cs| - 1 ==> Fat(m, f, cs[k]) == cs[k + 1];
    }
  }

  /** The second FAT stays a mirror; end markers stay at the end exactly when the name does not
      itself start with one, or nothing but end markers follows its slot. */
  lemma KeepsWellFormed(m: Ram, f: Layout, limit: nat, name: Name, i: nat, c: nat)
    requires Ready(m, f, limit, i, c)
    ensures Mirrored(Create(m, f, name), f, limit)
    ensures EndMarked(Create(m, f, name), f) <==> name[0] != 0 || NothingFollows(m, f, i)
  {
    TakesLowestFree(m, f, limit, i, c);
    KeepsMirror(m, f, limit, name, i, c);
    if name[0] != 0 {
      KeepsEndMarks(m, f, limit, name, i, c);
    } else {
      EndMarkInTheWay(m, f, limit, name, i, c);
    }
  }

  ghost predicate NothingFollows(m: Ram, f: Layout, i: nat)
    requires f.Valid()
  {
    forall j :: i < j < f.rdcnt ==> First(m, f, j) == 0
  }

  lemma EndMarkInTheWay(m: Ram, f: Layout, limit: nat, name: Name, i: nat, c: nat)
    requires Laid(f, limit) && EndMarked(m, f) && FirstSlot(m, f, 0) == Some(i) && 2 <= c < limit && name[0] == 0
    ensures EndMarked(CreateAt(m, f, name, i, c), f) <==> NothingFollows(m, f, i)
  {
    var m' := CreateAt(m, f, name, i, c);
    NewSlot(m, f, name, i, c);
    assert NameAt(m', f, i)[0] == First(m', f, i) == 0;
    FirstSlotIsFirst(m, f, 0);
    forall j | 0 <= j < f.rdcnt && j != i
      ensures First(m', f, j) == First(m, f, j) && (j < i ==> First(m', f, j) != 0)
    {
      SameFirst(m, f, limit, name, i, c, j);
      assert j < i ==> !IsFreeSlot(m, f, j);
    }
  }

  lemma KeepsMirror(m: Ram, f: Layout, limit: nat, name: Name, i: nat, c: nat)
    requires Laid(f, limit) && Mirrored(m, f, limit) && i < f.rdcnt && 2 <= c < limit
    ensures Mirrored(CreateAt(m, f, name, i, c), f, limit)
  {
    var m' := CreateAt(m, f, name, i, c);
    NewFat(m, f, limit, name, i, c);
    if f.nfats > 1 {
      forall d | 0 <= d < limit ensures Fat(m', f, d) == Word(m', Fat2(f) + 2 * d) {
        if d != c {
          OtherFat(m, f, limit, name, i, c, d);
        }
      }
    }
  }

  lemma KeepsEndMarks(m: Ram, f: Layout, limit: nat, name: Name, i: nat, c: nat)
    requires Laid(f, limit) && EndMarked(m, f) && FirstSlot(m, f, 0) == Some(i) && 2 <= c < limit && name[0] != 0
    ensures EndMarked(CreateAt(m, f, name, i, c), f)
  {
    var m' := CreateAt(m, f, name, i, c);
    NewSlot(m, f, name, i, c);
    assert NameAt(m', f, i)[0] == First(m', f, i);
    FirstSlotIsFirst(m, f, 0);
    forall a, b | 0 <= a < b < f.rdcnt && First(m', f, a) == 0 ensures First(m', f, b) == 0 {
      assert a != i;
      SameFirst(m, f, limit, name, i, c, a);
      assert a < i ==> !IsFreeSlot(m, f, a);
      SameFirst(m, f, limit, name, i, c, b);
    }
  }

  lemma SameFirst(m: Ram, f: Layout, limit: nat, name: Name, i: nat, c: nat, j: nat)
    requires Laid(f, limit) && i < f.rdcnt && 2 <= c < limit && j < f.rdcnt && j != i
    ensures First(CreateAt(m, f, name, i, c), f, j) == First(m, f, j)
  {
    OtherSlot(m, f, limit, name, i, c, j, 0);
  }

  lemma {:induction false} FirstSlotIsFirst(m: Ram, f: Layout, i: nat)
    requires f.Valid() && i <= f.rdcnt
    ensures var r := FirstSlot(m, f, i);
      forall j :: i <= j < (if r.Some? then r.value else f.rdcnt) ==> !IsFreeSlot(m, f, j)
    decreases f.rdcnt - i
  {
    if i < f.rdcnt && !IsFreeSlot(m, f, i) {
      FirstSlotIsFirst(m, f, i + 1);
    }
  }

  /** Every chain and every byte of its data stay as they were. */
  lemma KeepsChains(m: Ram, f: Layout, limit: nat, name: Name, i: nat, c: nat, cs: seq<nat>)
    requires Takes(m, f, limit, i, c) && Chain(m, f, limit, cs)
    ensures var m' := Create(m, f, name);
      Chain(m', f, limit, cs) && forall k :: 0 <= k < |cs| ==> Data(m', f, cs[k]) == Data(m, f, cs[k])
  {
    TakesLowestFree(m, f, limit, i, c);
    forall k | 0 <= k < |cs|
      ensures Fat(Create(m, f, name), f, cs[k]) == Fat(m, f, cs[k])
      ensures Data(Create(m, f, name), f, cs[k]) == Data(m, f, cs[k])
    {
      OtherFat(m, f, limit, name, i, c, cs[k]);
      OtherData(m, f, limit, name, i, c, cs[k]);
    }
  }

  /** The new file's chain is its one cluster, and its data is zero. */
  lemma NewChain(m: Ram, f: Layout, limit: nat, name: Name, i: nat, c: nat)
    requires Takes(m, f, limit, i, c)
    ensures var m' := Create(m, f, name);
      Chain(m', f, limit, [c]) && DirCluster(m', f, i) == c && DirSize(m', f, i) == 0
      && Data(m', f, c) == Zeros(ClusterBytes(f))
  {
    TakesLowestFree(m, f, limit, i, c);
    NewFat(m, f, limit, name, i, c);
    NewSlot(m, f, name, i, c);
    NewData(m, f, limit, name, i, c);
  }

  // ---- lookups ----

  lemma SameMatch(m: Ram, f: Layout, limit: nat, name: Name, i: nat, c: nat, other: Name, j: nat)
    requires Laid(f, limit) && i < f.rdcnt && 2 <= c < limit && j < f.rdcnt && j != i
    ensures var m' := CreateAt(m, f, name, i, c);
      First(m', f, j) == First(m, f, j) && (Matches(m', f, other, j) <==> Matches(m, f, other, j))
  {
    var m' := CreateAt(m, f, name, i, c);
    SameFirst(m, f, limit, name, i, c, j);
    OtherSlot(m, f, limit, name, i, c, j, 11);
    forall k | Within(k, Slot(f, j), 11) ensures m'[k] == m[k] {
      OtherSlot(m, f, limit, name, i, c, j, k - Slot(f, j));
    }
    SameSlice(m', m, Slot(f, j), 11);
  }

  /** A search treats slot `k` alike in both memories. */
  ghost predicate Alike(m: Ram, m': Ram, f: Layout, name: Name, k: nat)
    requires f.Valid() && k < f.rdcnt
  {
    First(m', f, k) == First(m, f, k) && (Matches(m', f, name, k) <==> Matches(m, f, name, k))
  }

  /** Up to the new slot, a search proceeds as before. */
  lemma {:induction false} SearchBefore(m: Ram, m': Ram, f: Layout, name: Name, i: nat, j: nat)
    requires f.Valid() && j <= i < f.rdcnt
    requires forall k :: j <= k < i ==> Alike(m, m', f, name, k) && First(m, f, k) != 0
    ensures var r := Find(m, f, name, j);
      if r.Some? && r.value < i then Find(m', f, name, j) == r
      else r == Find(m, f, name, i) && Find(m', f, name, j) == Find(m', f, name, i)
    decreases i - j
  {
    if j < i {
      assert Alike(m, m', f, name, j);
      SearchBefore(m, m', f, name, i, j + 1);
    }
  }

  lemma {:induction false} SearchAfter(m: Ram, m': Ram, f: Layout, name: Name, j: nat)
    requires f.Valid() && j <= f.rdcnt && forall k :: j <= k < f.rdcnt ==> Alike(m, m', f, name, k)
    ensures Find(m', f, name, j) == Find(m, f, name, j)
    decreases f.rdcnt - j
  {
    if j < f.rdcnt {
      assert Alike(m, m', f, name, j);
      SearchAfter(m, m', f, name, j + 1);
    }
  }

  lemma AlikeElsewhere(m: Ram, f: Layout, limit: nat, name: Name, i: nat, c: nat, other: Name)
    requires Laid(f, limit) && FirstSlot(m, f, 0) == Some(i) && 2 <= c < limit
    ensures forall k :: 0 <= k < f.rdcnt && k != i ==> Alike(m, CreateAt(m, f, name, i, c), f, other, k)
    ensures forall k :: 0 <= k < i ==> First(m, f, k) != 0
  {
    FirstSlotIsFirst(m, f, 0);
    forall k | 0 <= k < i ensures First(m, f, k) != 0 {
      assert !IsFreeSlot(m, f, k);
    }
    forall k | 0 <= k < f.rdcnt && k != i ensures Alike(m, CreateAt(m, f, name, i, c), f, other, k) {
      SameMatch(m, f, limit, name, i, c, other, k);
    }
  }

  /** What the search makes of the new slot itself. */
  lemma SearchAt(m: Ram, f: Layout, name: Name, i: nat, c: nat, other: Name)
    requires f.Valid() && i < f.rdcnt && c < 0x1_0000
    ensures var m' := CreateAt(m, f, name, i, c);
      Find(m', f, other, i)
      == if name[0] == 0x00 then None
         else if name[0] != 0xE5 && other == name then Some(i)
         else Find(m', f, other, i + 1)
  {
    var m' := CreateAt(m, f, name, i, c);
    NewSlot(m, f, name, i, c);
    assert NameAt(m', f, i)[0] == First(m', f, i);
    assert And(0x20, 0x08) == 0;
  }

  /** Beyond a slot that ended the directory there is nothing to find. */
  lemma NothingAfter(m: Ram, f: Layout, name: Name, i: nat)
    requires f.Valid() && EndMarked(m, f) && i < f.rdcnt && First(m, f, i) == 0
    ensures Find(m, f, name, i) == None && Find(m, f, name, i + 1) == None
  {
    assert i + 1 < f.rdcnt ==> First(m, f, i + 1) == 0;
  }

  lemma NotAtFreeSlot(m: Ram, f: Layout, name: Name, i: nat)
    requires f.Valid() && i < f.rdcnt && IsFreeSlot(m, f, i)
    ensures var r := Find(m, f, name, i); r == None || r.value > i
  {
    assert First(m, f, i) == 0x00 || !Matches(m, f, name, i);
  }

  /** The new name is found at its new slot exactly when it is a name a live entry can have and no
      earlier entry has it. */
  lemma FindsTheNewFile(m: Ram, f: Layout, limit: nat, name: Name, i: nat, c: nat)
    requires Takes(m, f, limit, i, c)
    ensures var before := Find(m, f, name, 0);
      Find(Create(m, f, name), f, name, 0) == Some(i)
      <==> name[0] != 0x00 && name[0] != 0xE5 && (before == None || before.value > i)
  {
    TakesLowestFree(m, f, limit, i, c);
    AlikeElsewhere(m, f, limit, name, i, c, name);
    SearchBefore(m, Create(m, f, name), f, name, i, 0);
    SearchAt(m, f, name, i, c, name);
    NotAtFreeSlot(m, f, name, i);
  }

  /** What becomes of another name's lookup, on every volume: a file before the new slot is found as before; beyond
      it the search stops at the new entry if that is an end marker, and otherwise goes on, even where it used to
      stop. */
  lemma LookupOf(m: Ram, f: Layout, limit: nat, name: Name, i: nat, c: nat, other: Name)
    requires Takes(m, f, limit, i, c) && other != name
    ensures var before := Find(m, f, other, 0);
      Find(Create(m, f, name), f, other, 0)
      == if before.Some? && before.value < i then before
         else if name[0] == 0x00 then None
         else Find(m, f, other, i + 1)
    ensures var before := Find(m, f, other, 0);
      (before.Some? && before.value < i) || before == Find(m, f, other, i)
  {
    TakesLowestFree(m, f, limit, i, c);
    AlikeElsewhere(m, f, limit, name, i, c, other);
    SearchBefore(m, Create(m, f, name), f, other, i, 0);
    SearchAt(m, f, name, i, c, other);
    SearchAfter(m, Create(m, f, name), f, other, i + 1);
    NotAtFreeSlot(m, f, other, i);
  }

  /** So it is unchanged exactly when the other was found before the new slot, or the new entry does not end the
      directory before it, nor lets the search reach an entry that an end marker hid. */
  lemma LookupStays(m: Ram, f: Layout, limit: nat, name: Name, i: nat, c: nat, other: Name)
    requires Takes(m, f, limit, i, c) && other != name
    ensures var before := Find(m, f, other, 0);
      Find(Create(m, f, name), f, other, 0) == before
      <==> (before.Some? && before.value < i)
           || (if name[0] == 0x00 then Find(m, f, other, i) == None
               else First(m, f, i) == 0x00 ==> Find(m, f, other, i + 1) == None)
  {
    LookupOf(m, f, limit, name, i, c, other);
    assert IsFreeSlot(m, f, i);
  }

  /** Where end markers are at the end, exactly when the new name does not start with one, or the other was not
      found beyond the new slot. */
  lemma FindsTheOthers(m: Ram, f: Layout, limit: nat, name: Name, i: nat, c: nat, other: Name)
    requires Ready(m, f, limit, i, c) && other != name
    ensures var before := Find(m, f, other, 0);
      Find(Create(m, f, name), f, other, 0) == before
      <==> name[0] != 0x00 || before == None || before.value < i
  {
    LookupStays(m, f, limit, name, i, c, other);
    LookupOf(m, f, limit, name, i, c, other);
    NotAtFreeSlot(m, f, other, i);
    if First(m, f, i) == 0 {
      NothingAfter(m, f, other, i);
    }
  }

  // ---- families of files ----

  /** The file at slot `i` starts the chain `cs`. */
  ghost predicate FileAt(m: Ram, f: Layout, limit: nat, i: nat, cs: seq<nat>)
    requires f.Valid() && limit <= CLUSTER_END
  {
    i < f.rdcnt && !IsFreeSlot(m, f, i) && Chain(m, f, limit, cs) && cs[0] == DirCluster(m, f, i)
  }

  predicate Disjoint(cs: seq<nat>, ds: seq<nat>) { forall c :: c in cs ==> c !in ds }

  /** Files, by slot, no two of which share a cluster. */
  ghost predicate Files(m: Ram, f: Layout, limit: nat, files: map<nat, seq<nat>>)
    requires f.Valid() && limit <= CLUSTER_END
  {
    (forall i :: i in files ==> FileAt(m, f, limit, i, files[i])) && PairwiseDisjoint(files)
  }

  ghost predicate PairwiseDisjoint(files: map<nat, seq<nat>>)
  {
    forall i, j :: i in files && j in files && i != j ==> Disjoint(files[i], files[j])
  }

  lemma KeepsFile(m: Ram, f: Layout, limit: nat, name: Name, i: nat, c: nat, j: nat, cs: seq<nat>)
    requires Ready(m, f, limit, i, c) && FileAt(m, f, limit, j, cs)
    ensures i != j && c !in cs && FileAt(Create(m, f, name), f, limit, j, cs)
  {
    TakesLowestFree(m, f, limit, i, c);
    KeepsChains(m, f, limit, name, i, c, cs);
    SameEntry(m, f, limit, name, i, c, j);
  }

  lemma SameEntry(m: Ram, f: Layout, limit: nat, name: Name, i: nat, c: nat, j: nat)
    requires Laid(f, limit) && i < f.rdcnt && 2 <= c < limit && j < f.rdcnt && j != i
    ensures var m' := CreateAt(m, f, name, i, c);
      First(m', f, j) == First(m, f, j) && DirCluster(m', f, j) == DirCluster(m, f, j)
  {
    SameFirst(m, f, limit, name, i, c, j);
    OtherSlot(m, f, limit, name, i, c, j, 26);
    OtherSlot(m, f, limit, name, i, c, j, 27);
  }

  lemma NewFile(m: Ram, f: Layout, limit: nat, name: Name, i: nat, c: nat)
    requires Ready(m, f, limit, i, c) && name[0] != 0x00 && name[0] != 0xE5
    ensures FileAt(Create(m, f, name), f, limit, i, [c])
  {
    NewChain(m, f, limit, name, i, c);
    NewSlot(m, f, name, i, c);
    assert NameAt(Create(m, f, name), f, i)[0] == First(Create(m, f, name), f, i);
  }

  /** A created file joins the family: the others keep their entries, their chains and their bytes. */
  lemma JoinsTheFiles(m: Ram, f: Layout, limit: nat, name: Name, i: nat, c: nat, files: map<nat, seq<nat>>)
    requires Ready(m, f, limit, i, c) && Files(m, f, limit, files) && name[0] != 0x00 && name[0] != 0xE5
    ensures i !in files && Files(Create(m, f, name), f, limit, files[i := [c]])
  {
    NewFile(m, f, limit, name, i, c);
    forall j | j in files
      ensures j != i && FileAt(Create(m, f, name), f, limit, j, files[j]) && c !in files[j]
    {
      KeepsFile(m, f, limit, name, i, c, j, files[j]);
    }
    OneMore(Create(m, f, name), f, limit, files, i, c);
  }

  lemma OneMore(m: Ram, f: Layout, limit: nat, files: map<nat, seq<nat>>, i: nat, c: nat)
    requires f.Valid() && limit <= CLUSTER_END && i !in files && FileAt(m, f, limit, i, [c])
    requires forall j :: j in files ==> FileAt(m, f, limit, j, files[j]) && c !in files[j]
    requires PairwiseDisjoint(files)
    ensures Files(m, f, limit, files[i := [c]])
  {
  }

  /** A run of file creations. */
  function CreateAll(m: Ram, f: Layout, names: seq<Name>): Ram
    requires f.Valid()
    decreases |names|
  {
    if names == [] then m else CreateAll(Create(m, f, names[0]), f, names[1..])
  }

  /** No creation of the run has to go beyond the first `limit` clusters. */
  ghost predicate Roomy(m: Ram, f: Layout, limit: nat, names: seq<Name>)
    requires f.Valid()
    decreases |names|
  {
    names == [] ||
    (FirstFree(m, f, 2) < limit && names[0][0] != 0x00 && names[0][0] != 0xE5
     && Roomy(Create(m, f, names[0]), f, limit, names[1..]))
  }

  ghost predicate Sound(m: Ram, f: Layout, limit: nat, files: map<nat, seq<nat>>)
  {
    Laid(f, limit) && EndMarked(m, f) && Mirrored(m, f, limit) && Files(m, f, limit, files)
  }

  /** `files'` still has the files of `files`, with the same chains and the same bytes. */
  ghost predicate Kept(m: Ram, m': Ram, f: Layout, files: map<nat, seq<nat>>, files': map<nat, seq<nat>>)
    requires f.Valid()
  {
    forall i :: i in files ==> i in files' && files'[i] == files[i] && SameBytes(m, m', f, files[i])
  }

  ghost predicate SameBytes(m: Ram, m': Ram, f: Layout, cs: seq<nat>)
    requires f.Valid()
  {
    forall k :: 0 <= k < |cs| ==> Data(m', f, cs[k]) == Data(m, f, cs[k])
  }

  lemma CreationIsSound(m: Ram, f: Layout, limit: nat, name: Name, files: map<nat, seq<nat>>)
    returns (files': map<nat, seq<nat>>)
    requires Sound(m, f, limit, files) && FirstFree(m, f, 2) < limit && name[0] != 0x00 && name[0] != 0xE5
    ensures Sound(Create(m, f, name), f, limit, files') && Kept(m, Create(m, f, name), f, files, files')
    ensures Outcome(m, f).Created? ==> files'.Keys == files.Keys + {Outcome(m, f).slot}
  {
    var r := Outcome(m, f);
    if r == Full {
      files' := files;
    } else {
      KeepsWellFormed(m, f, limit, name, r.slot, r.cluster);
      JoinsTheFiles(m, f, limit, name, r.slot, r.cluster, files);
      files' := files[r.slot := [r.cluster]];
      KeepsAllBytes(m, f, limit, name, r.slot, r.cluster, files);
    }
  }

  lemma KeepsAllBytes(m: Ram, f: Layout, limit: nat, name: Name, i: nat, c: nat, files: map<nat, seq<nat>>)
    requires Ready(m, f, limit, i, c) && Files(m, f, limit, files) && i !in files
    ensures Kept(m, Create(m, f, name), f, files, files[i := [c]])
  {
    forall j | j in files ensures SameBytes(m, Create(m, f, name), f, files[j]) {
      assert FileAt(m, f, limit, j, files[j]);
      KeepsBytes(m, f, limit, name, i, c, files[j]);
    }
    StillKept(m, Create(m, f, name), f, files, i, [c]);
  }

  lemma KeepsBytes(m: Ram, f: Layout, limit: nat, name: Name, i: nat, c: nat, cs: seq<nat>)
    requires Ready(m, f, limit, i, c) && Chain(m, f, limit, cs)
    ensures SameBytes(m, Create(m, f, name), f, cs)
  {
    KeepsChains(m, f, limit, name, i, c, cs);
  }

  lemma StillKept(m: Ram, m': Ram, f: Layout, files: map<nat, seq<nat>>, i: nat, cs: seq<nat>)
    requires f.Valid() && i !in files && forall j :: j in files ==> SameBytes(m, m', f, files[j])
    ensures Kept(m, m', f, files, files[i := cs])
  {
  }

  /** Over any run of creations the volume stays well-formed, the files stay disjoint, and every file
      there was at the start keeps its chain and its bytes. */
  lemma {:induction false} RunIsSound(m: Ram, f: Layout, limit: nat, names: seq<Name>, files: map<nat, seq<nat>>)
    returns (files': map<nat, seq<nat>>)
    requires Sound(m, f, limit, files) && Roomy(m, f, limit, names)
    ensures Sound(CreateAll(m, f, names), f, limit, files') && Kept(m, CreateAll(m, f, names), f, files, files')
    decreases |names|
  {
    if names == [] {
      files' := files;
    } else {
      var m1 := Create(m, f, names[0]);
      var files1 := CreationIsSound(m, f, limit, names[0], files);
      files' := RunIsSound(m1, f, limit, names[1..], files1);
      KeptTwice(m, m1, CreateAll(m, f, names), f, files, files1, files');
    }
  }

  lemma KeptTwice(m: Ram, m1: Ram, m2: Ram, f: Layout,
                  files: map<nat, seq<nat>>, files1: map<nat, seq<nat>>, files2: map<nat, seq<nat>>)
    requires f.Valid() && Kept(m, m1, f, files, files1) && Kept(m1, m2, f, files1, files2)
    ensures Kept(m, m2, f, files, files2)
  {
    forall i | i in files ensures SameBytes(m, m2, f, files[i]) {
      assert SameBytes(m, m1, f, files[i]) && SameBytes(m1, m2, f, files1[i]);
    }
  }

  // ---- running out of clusters ----

  /** Allocation stays among the volume's `limit` FAT entries exactly when one of them is free, or
      no zero word follows them: the scan never looks at the FAT's size. */
  lemma StaysInside(m: Ram, f: Layout, limit: nat)
    requires f.Valid() && 2 <= limit <= CLUSTER_END
    ensures FirstFree(m, f, 2) < limit
      <==> !NoneFree(m, f, 2, limit) || NoneFree(m, f, limit, CLUSTER_END)
  {
    FirstFreeIsLowest(m, f, 2);
    var r := FirstFree(m, f, 2);
    if r >= limit {
      assert NoneFree(m, f, 2, limit);
      assert Fat(m, f, r) == 0;
    } else if r == 0 && !NoneFree(m, f, limit, CLUSTER_END) {
      assert false;
    }
  }

  /** One FAT of a single 512-byte sector, then sixteen directory slots, then the data. */
  const TINY: Layout := Layout(512, 1, 1, 1, 16, 1, 1, 2, 3)

  /** The same with two FATs. */
  const SMALL: Layout := Layout(512, 1, 1, 2, 16, 1, 1, 3, 4)

  /** The boot sector of either. */
  function BootByte(nfats: Byte, k: nat): Byte
  {
    if k == 0x0C then 2 else if k == 0x0D || k == 0x0E || k == 0x16 then 1
    else if k == 0x10 then nfats else if k == 0x11 then 16 else 0
  }

  function ImageByte(nfats: Byte, body: nat -> Byte, k: nat): Byte { if k < 512 then BootByte(nfats, k) else body(k) }

  function Image(nfats: Byte, body: nat -> Byte): Ram
  {
    seq(SPACE, (k: nat) => ImageByte(nfats, body, k))
  }

  /** What is mounted depends on the first sector alone. */
  lemma ImageMounts(m: Ram, nfats: Byte)
    requires forall k :: 0 <= k < 0x18 ==> m[k] == BootByte(nfats, k)
    ensures nfats == 1 ==> Mounted(m) == TINY
    ensures nfats == 2 ==> Mounted(m) == SMALL
  {
    assert Word(m, 0x0B) == 512 && Word(m, 0x0E) == 1 && Word(m, 0x16) == 1 && Word(m, 0x11) == 16;
  }

  function TinyFull(): Ram { Image(1, (k: nat) => if k < 1024 then 0xFF else 0) }

  /** On that volume every cluster is taken, yet a file is created: its cluster, 256, has its FAT
      entry inside the root directory. */
  lemma FullVolumeStillCreates(name: Name)
    ensures Mounted(TinyFull()) == TINY
    ensures Laid(TINY, 256) && EndMarked(TinyFull(), TINY) && NoneFree(TinyFull(), TINY, 2, 256)
    ensures Outcome(TinyFull(), TINY) == Created(0, 256)
    ensures Fat1(TINY) + 2 * 256 == Slot(TINY, 0)
  {
    var m := TinyFull();
    ImageMounts(m, 1);
    TinyEntries(m);
    FirstFreeIsLowest(m, TINY, 2);
    assert First(m, TINY, 0) == 0;
    TinyIsLaid();
  }

  lemma TinyEntries(m: Ram)
    requires m == TinyFull()
    ensures NoneFree(m, TINY, 2, 256) && Fat(m, TINY, 256) == 0
    ensures forall i :: 0 <= i < 16 ==> First(m, TINY, i) == 0
  {
    forall c | 2 <= c < 256 ensures Fat(m, TINY, c) != 0 {
    }
  }

  lemma TinyIsLaid()
    ensures Laid(TINY, 256)
  {
    SequenceIsLaid(TINY, 1, 1, 256);
  }

  // ---- examples ----

  function Blank(): Ram { Image(2, (k: nat) => 0) }

  /** Why end markers must stay at the end: an entry left beyond one comes back to life when the
      marker's slot is taken. */
  lemma StaleEntryReturns(name: Name, stale: Name)
    requires name[0] != 0x00 && stale[0] != 0x00 && stale[0] != 0xE5 && name != stale
    ensures var m := Paste(Blank(), Slot(SMALL, 1), NewEntry(stale, 3));
      Mounted(m) == SMALL && !EndMarked(m, SMALL) && Find(m, SMALL, stale, 0) == None
      && Find(Create(m, SMALL, name), SMALL, stale, 0) == Some(1)
  {
    var m := Paste(Blank(), Slot(SMALL, 1), NewEntry(stale, 3));
    ImageMounts(m, 2);
    StaleEntry(stale, m);
    SmallIsLaid();
    StaleTakes(m);
    LookupOf(m, SMALL, 256, name, 0, 2, stale);
  }

  lemma StaleEntry(stale: Name, m: Ram)
    requires stale[0] != 0x00 && stale[0] != 0xE5 && m == Paste(Blank(), Slot(SMALL, 1), NewEntry(stale, 3))
    ensures First(m, SMALL, 0) == 0 && First(m, SMALL, 1) == stale[0] && Matches(m, SMALL, stale, 1)
    ensures Fat(m, SMALL, 2) == 0
  {
    EntryFields(stale, 3);
    PasteSlice(Blank(), Slot(SMALL, 1), NewEntry(stale, 3));
    assert NameAt(m, SMALL, 1) == stale && NameAt(m, SMALL, 1)[0] == First(m, SMALL, 1);
    assert And(0x20, 0x08) == 0;
  }

  lemma StaleTakes(m: Ram)
    requires Laid(SMALL, 256) && First(m, SMALL, 0) == 0 && Fat(m, SMALL, 2) == 0
    ensures Takes(m, SMALL, 256, 0, 2)
  {
    assert IsFreeSlot(m, SMALL, 0);
  }

  lemma SmallIsLaid()
    ensures Laid(SMALL, 256)
  {
    SequenceIsLaid(SMALL, 2, 1, 256);
  }
}
