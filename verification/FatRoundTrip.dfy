/** Creating a file, filling its cluster, storing its size, and opening it again. */
module FatRoundTrip {
  import opened Options
  import opened Machine32
  import opened Bits
  import opened Fat16
  import opened Fat16Volume
  import opened Fat16Theorems
  import opened FatChain
  import opened FatPath
  import opened FatFile

  /** Memory after `data` is written to cluster `c` and its length to slot `i`. */
  function Filled(m: Ram, f: Layout, i: nat, c: nat, data: seq<Byte>): Ram
    requires f.Valid() && i < f.rdcnt && |data| <= ClusterBytes(f)
  {
    Paste(Paste(m, Cluster(f, c), data), Slot(f, i) + 28, Bytes32(|data|))
  }

  function Saved(m: Ram, f: Layout, name: Name, i: nat, c: nat, data: seq<Byte>): Ram
    requires f.Valid() && i < f.rdcnt && c < 0x1_0000 && |data| <= ClusterBytes(f)
  {
    Filled(CreateAt(m, f, name, i, c), f, i, c, data)
  }

  // ---- what filling leaves alone ----

  lemma FilledFrame(m: Ram, f: Layout, i: nat, c: nat, data: seq<Byte>, k: nat)
    requires f.Valid() && i < f.rdcnt && |data| <= ClusterBytes(f) && k < SPACE
    requires !Within(k, Cluster(f, c), ClusterBytes(f)) && !Within(k, Slot(f, i) + 28, 4)
    ensures Filled(m, f, i, c, data)[k] == m[k]
  {
  }

  lemma FilledFat(m: Ram, f: Layout, limit: nat, i: nat, c: nat, data: seq<Byte>, x: nat)
    requires Laid(f, limit) && i < f.rdcnt && 2 <= c < limit && |data| <= ClusterBytes(f) && x < limit
    ensures Fat(Filled(m, f, i, c, data), f, x) == Fat(m, f, x)
  {
    FilledFrame(m, f, i, c, data, Fat1(f) + 2 * x);
    FilledFrame(m, f, i, c, data, Fat1(f) + 2 * x + 1);
  }

  lemma FilledSlot(m: Ram, f: Layout, limit: nat, i: nat, c: nat, data: seq<Byte>, j: nat, k: nat)
    requires Laid(f, limit) && i < f.rdcnt && 2 <= c < limit && |data| <= ClusterBytes(f)
    requires j < f.rdcnt && k < 32 && (j != i || k < 28)
    ensures Filled(m, f, i, c, data)[Slot(f, j) + k] == m[Slot(f, j) + k]
  {
    FilledFrame(m, f, i, c, data, Slot(f, j) + k);
  }

  lemma FilledData(m: Ram, f: Layout, limit: nat, i: nat, c: nat, data: seq<Byte>)
    requires Laid(f, limit) && i < f.rdcnt && 2 <= c < limit && |data| <= ClusterBytes(f)
    ensures Data(Filled(m, f, i, c, data), f, c)[..|data|] == data
  {
    var m' := Filled(m, f, i, c, data);
    forall k | 0 <= k < |data| ensures Data(m', f, c)[k] == data[k] {
      assert m'[Cluster(f, c) + k] == data[k];
    }
  }

  lemma FilledSize(m: Ram, f: Layout, i: nat, c: nat, data: seq<Byte>)
    requires f.Valid() && i < f.rdcnt && |data| <= ClusterBytes(f)
    ensures SizeOf(Filled(m, f, i, c, data), Slot(f, i)) == |data|
  {
    PasteSlice(Paste(m, Cluster(f, c), data), Slot(f, i) + 28, Bytes32(|data|));
    SplitBytes(|data|);
  }

  lemma SplitBytes(n: nat)
    requires n < 0x100_0000
    ensures n % 256 + 256 * (n / 256 % 256) + 0x1_0000 * (n / 0x1_0000 % 256 + 256 * (n / 0x100_0000)) == n
  {
  }

  // ---- the file reads back ----

  /** Opening the entry yields exactly the data written. */
  lemma SavedReadsBack(m: Ram, f: Layout, limit: nat, name: Name, i: nat, c: nat, data: seq<Byte>)
    requires Ready(m, f, limit, i, c) && |data| <= ClusterBytes(f)
    ensures var m', e := Saved(m, f, name, i, c, data), Slot(f, i);
      SizeOf(m', e) == |data| && FirstCluster(m', e) == c
      && |data| <= |Stored(m', f, c, |data|)| && Stored(m', f, c, |data|)[..|data|] == data
  {
    TakesLowestFree(m, f, limit, i, c);
    var m1, m' := CreateAt(m, f, name, i, c), Saved(m, f, name, i, c, data);
    FilledSize(m1, f, i, c, data);
    NewSlot(m, f, name, i, c);
    FilledSlot(m1, f, limit, i, c, data, i, 26);
    FilledSlot(m1, f, limit, i, c, data, i, 27);
    if data != [] {
      NewFat(m, f, limit, name, i, c);
      FilledFat(m1, f, limit, i, c, data, c);
      FilledData(m1, f, limit, i, c, data);
      OneCluster(m', f, c, |data|);
    }
  }

  lemma OneCluster(m: Ram, f: Layout, c: nat, n: nat)
    requires f.Valid() && InUse(c) && Fat(m, f, c) == 0xFFFF && n > 0
    ensures Stored(m, f, c, n) == Data(m, f, c)
  {
    assert Follow(m, f, c, n) == [c] + Follow(m, f, 0xFFFF, n - 1) == [c];
    assert Joined(m, f, [c]) == Data(m, f, c) + Joined(m, f, []);
  }

  /** A scan of the root directory from slot `j` on. */
  function ScanRoot(m: Ram, f: Layout, comp: seq<Byte>, j: nat): Option<Address>
    requires f.Valid() && j <= f.rdcnt
  {
    Scan(m, RootSlots(f)[j..], false, comp)
  }

  lemma ScanRootStep(m: Ram, f: Layout, comp: seq<Byte>, j: nat)
    requires f.Valid() && j < f.rdcnt
    ensures ScanRoot(m, f, comp, j)
      == if First(m, f, j) == 0 then None
         else if Hit(m, Slot(f, j), false, comp) then Some(Slot(f, j)) else ScanRoot(m, f, comp, j + 1)
  {
    assert RootSlots(f)[j..][0] == Slot(f, j) && RootSlots(f)[j..][1..] == RootSlots(f)[j + 1..];
  }

  /** The root scan by path component finds the saved file, if it found nothing before. */
  lemma SavedIsFound(m: Ram, f: Layout, limit: nat, i: nat, c: nat, data: seq<Byte>, comp: seq<Byte>)
    requires Ready(m, f, limit, i, c) && |data| <= ClusterBytes(f)
    requires Short(comp)[0] != 0x00 && Short(comp)[0] != 0xE5
    requires Scan(m, RootSlots(f), false, comp) == None
    ensures Scan(Saved(m, f, Short(comp), i, c, data), RootSlots(f), false, comp) == Some(Slot(f, i))
  {
    TakesLowestFree(m, f, limit, i, c);
    assert RootSlots(f)[0..] == RootSlots(f);
    ScansUpTo(m, f, limit, i, c, data, comp, 0);
    HitsTheNewSlot(m, f, limit, i, c, data, comp);
    ScanRootStep(Saved(m, f, Short(comp), i, c, data), f, comp, i);
  }

  /** So the path of a saved file resolves to an entry whose contents are the data. */
  lemma SavedOpens(m: Ram, f: Layout, limit: nat, i: nat, c: nat, data: seq<Byte>, path: seq<Byte>)
    requires Ready(m, f, limit, i, c) && |data| <= ClusterBytes(f)
    requires |path| < PATH_BUFFER && SLASH !in path && Resolve(m, f, path) == None
    requires Short(path)[0] != 0x00 && Short(path)[0] != 0xE5
    ensures var m' := Saved(m, f, Short(path), i, c, data);
      var e := Resolve(m', f, path);
      e.Some? && SizeOf(m', e.value) == |data|
      && |data| <= |Stored(m', f, FirstCluster(m', e.value), |data|)|
      && Stored(m', f, FirstCluster(m', e.value), |data|)[..|data|] == data
  {
    assert FirstOf(path, SLASH) == |path|;
    SavedIsFound(m, f, limit, i, c, data, path);
    TakesLowestFree(m, f, limit, i, c);
    SavedReadsBack(m, f, limit, Short(path), i, c, data);
  }

  lemma {:induction false} ScansUpTo(m: Ram, f: Layout, limit: nat, i: nat, c: nat, data: seq<Byte>, comp: seq<Byte>,
                                     j: nat)
    requires Laid(f, limit) && FirstSlot(m, f, 0) == Some(i) && 2 <= c < limit && j <= i && |data| <= ClusterBytes(f)
    requires ScanRoot(m, f, comp, j) == None
    ensures var m' := Saved(m, f, Short(comp), i, c, data); ScanRoot(m', f, comp, j) == ScanRoot(m', f, comp, i)
    decreases i - j
  {
    if j < i {
      var m' := Saved(m, f, Short(comp), i, c, data);
      FirstSlotIsFirst(m, f, 0);
      assert !IsFreeSlot(m, f, j);
      ScanRootStep(m, f, comp, j);
      SameHit(m, f, limit, Short(comp), i, c, data, comp, j);
      ScanRootStep(m', f, comp, j);
      ScansUpTo(m, f, limit, i, c, data, comp, j + 1);
    }
  }

  lemma SameHit(m: Ram, f: Layout, limit: nat, name: Name, i: nat, c: nat, data: seq<Byte>, comp: seq<Byte>, j: nat)
    requires Laid(f, limit) && i < f.rdcnt && 2 <= c < limit && j < f.rdcnt && j != i && |data| <= ClusterBytes(f)
    ensures var m' := Saved(m, f, name, i, c, data);
      First(m', f, j) == First(m, f, j) && (Hit(m', Slot(f, j), false, comp) <==> Hit(m, Slot(f, j), false, comp))
  {
    var m' := Saved(m, f, name, i, c, data);
    forall k | Within(k, Slot(f, j), 12) ensures m'[k] == m[k] {
      OtherSlot(m, f, limit, name, i, c, j, k - Slot(f, j));
      FilledSlot(CreateAt(m, f, name, i, c), f, limit, i, c, data, j, k - Slot(f, j));
    }
    assert Within(Slot(f, j), Slot(f, j), 12) && Within(Slot(f, j) + 11, Slot(f, j), 12);
    SameSlice(m', m, Slot(f, j), 11);
  }

  lemma HitsTheNewSlot(m: Ram, f: Layout, limit: nat, i: nat, c: nat, data: seq<Byte>, comp: seq<Byte>)
    requires Laid(f, limit) && i < f.rdcnt && 2 <= c < limit && |data| <= ClusterBytes(f)
    requires Short(comp)[0] != 0x00 && Short(comp)[0] != 0xE5
    ensures var m' := Saved(m, f, Short(comp), i, c, data);
      First(m', f, i) != 0 && Hit(m', Slot(f, i), false, comp)
  {
    var name := Short(comp);
    var m1, m' := CreateAt(m, f, name, i, c), Saved(m, f, name, i, c, data);
    NewSlot(m, f, name, i, c);
    forall k | Within(k, Slot(f, i), 12) ensures m'[k] == m1[k] {
      FilledSlot(m1, f, limit, i, c, data, i, k - Slot(f, i));
    }
    assert Within(Slot(f, i), Slot(f, i), 12) && Within(Slot(f, i) + 11, Slot(f, i), 12);
    SameSlice(m', m1, Slot(f, i), 11);
    assert NameAt(m1, f, i)[0] == First(m1, f, i);
    assert And(0x20, 0x08) == 0;
  }

  /** Every other file still reads as it did. */
  lemma SavedKeepsOthers(m: Ram, f: Layout, limit: nat, name: Name, i: nat, c: nat, data: seq<Byte>, cs: seq<nat>,
                         size: nat)
    requires Ready(m, f, limit, i, c) && |data| <= ClusterBytes(f) && Chain(m, f, limit, cs)
    ensures Stored(Saved(m, f, name, i, c, data), f, cs[0], size) == Stored(m, f, cs[0], size)
  {
    TakesLowestFree(m, f, limit, i, c);
    forall k | 0 <= k < |cs| ensures SameAt(m, Saved(m, f, name, i, c, data), f, cs[k]) {
      SameCluster(m, f, limit, name, i, c, data, cs[k]);
    }
    SameWalk(m, Saved(m, f, name, i, c, data), f, limit, cs, size);
  }

  /** Cluster `x` has the same FAT entry and the same bytes in both memories. */
  ghost predicate SameAt(m: Ram, m': Ram, f: Layout, x: nat)
    requires f.Valid()
  {
    x < 0x1_0000 && Fat(m', f, x) == Fat(m, f, x) && Data(m', f, x) == Data(m, f, x)
  }

  ghost predicate AllSame(m: Ram, m': Ram, f: Layout, cs: seq<nat>)
    requires f.Valid()
  {
    forall k :: 0 <= k < |cs| ==> SameAt(m, m', f, cs[k])
  }

  lemma {:induction false} SameWalk(m: Ram, m': Ram, f: Layout, limit: nat, cs: seq<nat>, n: nat)
    requires f.Valid() && limit <= CLUSTER_END && Chain(m, f, limit, cs)
    requires AllSame(m, m', f, cs)
    ensures Stored(m', f, cs[0], n) == Stored(m, f, cs[0], n)
    decreases n
  {
    if n > 0 {
      SameTail(m, m', f, cs);
      if |cs| > 1 {
        ChainTail(m, f, limit, cs);
        SameWalk(m, m', f, limit, cs[1..], n - 1);
      } else {
        WalkStops(m, f, Fat(m, f, cs[0]), n - 1);
        WalkStops(m', f, Fat(m, f, cs[0]), n - 1);
      }
      SameStored(m, m', f, cs[0], n);
    }
  }

  lemma SameStored(m: Ram, m': Ram, f: Layout, c: nat, n: nat)
    requires f.Valid() && InUse(c) && n > 0 && SameAt(m, m', f, c)
    requires Stored(m', f, Fat(m, f, c), n - 1) == Stored(m, f, Fat(m, f, c), n - 1)
    ensures Stored(m', f, c, n) == Stored(m, f, c, n)
  {
    StoredStep(m, f, c, n);
    StoredStep(m', f, c, n);
  }

  lemma SameTail(m: Ram, m': Ram, f: Layout, cs: seq<nat>)
    requires f.Valid() && |cs| > 0 && AllSame(m, m', f, cs)
    ensures SameAt(m, m', f, cs[0]) && AllSame(m, m', f, cs[1..])
  {
    var ds := cs[1..];
    forall k | 0 <= k < |ds| ensures SameAt(m, m', f, ds[k]) {
      assert SameAt(m, m', f, cs[k + 1]);
    }
  }

  lemma ChainTail(m: Ram, f: Layout, limit: nat, cs: seq<nat>)
    requires limit <= CLUSTER_END && Chain(m, f, limit, cs) && |cs| > 1
    ensures Chain(m, f, limit, cs[1..]) && Fat(m, f, cs[0]) == cs[1]
  {
    var ds := cs[1..];
    forall k | 0 <= k < |ds| - 1 ensures Fat(m, f, ds[k]) == ds[k + 1] {
      assert Fat(m, f, cs[k + 1]) == cs[k + 2];
    }
  }

  lemma WalkStops(m: Ram, f: Layout, c: nat, n: nat)
    requires f.Valid() && CLUSTER_END <= c < 0x1_0000
    ensures Stored(m, f, c, n) == []
  {
  }

  lemma StoredStep(m: Ram, f: Layout, c: nat, n: nat)
    requires f.Valid() && InUse(c) && n > 0
    ensures Stored(m, f, c, n) == Data(m, f, c) + Stored(m, f, Fat(m, f, c), n - 1)
  {
    var rest := Follow(m, f, Fat(m, f, c), n - 1);
    assert ([c] + rest)[1..] == rest;
  }

  lemma SameCluster(m: Ram, f: Layout, limit: nat, name: Name, i: nat, c: nat, data: seq<Byte>, x: nat)
    requires Laid(f, limit) && i < f.rdcnt && 2 <= c < limit && |data| <= ClusterBytes(f) && 2 <= x < limit && x != c
    ensures var m' := Saved(m, f, name, i, c, data);
      Fat(m', f, x) == Fat(m, f, x) && Data(m', f, x) == Data(m, f, x)
  {
    var m1 := CreateAt(m, f, name, i, c);
    OtherFat(m, f, limit, name, i, c, x);
    FilledFat(m1, f, limit, i, c, data, x);
    OtherData(m, f, limit, name, i, c, x);
    forall k | Within(k, Cluster(f, x), ClusterBytes(f)) ensures Filled(m1, f, i, c, data)[k] == m1[k] {
      FilledFrame(m1, f, i, c, data, k);
    }
    SameSlice(Filled(m1, f, i, c, data), m1, Cluster(f, x), ClusterBytes(f));
  }

  /** The program's way of doing it: create, copy the data into the cluster, store the size. */
  method Save(v: Volume, name: Name, data: seq<Byte>) returns (r: Created)
    requires v.Valid() && |data| <= ClusterBytes(v.f)
    modifies v.ram
    ensures v.Valid() && r == Outcome(old(v.ram[..]), v.f)
    ensures v.ram[..] == if r == Full then old(v.ram[..]) else Saved(old(v.ram[..]), v.f, name, r.slot, r.cluster, data)
  {
    r := v.CreateFile(name);
    if r.Created? {
      Fill(v, r.slot, r.cluster, data);
    }
  }

  method Fill(v: Volume, i: nat, c: nat, data: seq<Byte>)
    requires v.Valid() && i < v.f.rdcnt && |data| <= ClusterBytes(v.f)
    modifies v.ram
    ensures v.Valid() && v.ram[..] == Filled(old(v.ram[..]), v.f, i, c, data)
  {
    v.Memcpy(Cluster(v.f, c), data);
    v.SetSize(Slot(v.f, i), |data|);
  }
}
