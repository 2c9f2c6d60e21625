/** Runs of file creations: how many a volume has room for, and what becomes of a freshly formatted one. */
module Fat16Runs {
  import opened Fat16
  import opened Fat16Theorems

  // ---- free clusters are enough ----

  /** The free entries among clusters `lo` to `hi`. */
  function FreeCount(m: Ram, f: Layout, lo: nat, hi: nat): (n: nat)
    requires hi <= CLUSTER_END
    decreases hi
  {
    if hi <= lo then 0 else FreeCount(m, f, lo, hi - 1) + (if Fat(m, f, hi - 1) == 0 then 1 else 0)
  }

  lemma {:induction false} NoneCounted(m: Ram, f: Layout, lo: nat, hi: nat)
    requires hi <= CLUSTER_END && NoneFree(m, f, lo, hi)
    ensures FreeCount(m, f, lo, hi) == 0
    decreases hi
  {
    if lo < hi {
      assert NoneFree(m, f, lo, hi - 1);
      NoneCounted(m, f, lo, hi - 1);
    }
  }

  lemma {:induction false} CountedAlike(m: Ram, m': Ram, f: Layout, lo: nat, hi: nat, c: nat)
    requires hi <= CLUSTER_END && lo <= c < 0x1_0000 && Fat(m, f, c) == 0 && Fat(m', f, c) != 0
    requires forall d :: lo <= d < hi && d != c ==> Fat(m', f, d) == Fat(m, f, d)
    ensures FreeCount(m', f, lo, hi) == FreeCount(m, f, lo, hi) - (if c < hi then 1 else 0)
    decreases hi
  {
    if lo < hi {
      CountedAlike(m, m', f, lo, hi - 1, c);
    }
  }

  lemma FreeIsFound(m: Ram, f: Layout, limit: nat)
    requires f.Valid() && 2 <= limit <= CLUSTER_END && FreeCount(m, f, 2, limit) > 0
    ensures 2 <= FirstFree(m, f, 2) < limit && Fat(m, f, FirstFree(m, f, 2)) == 0
  {
    FirstFreeIsLowest(m, f, 2);
    if NoneFree(m, f, 2, limit) {
      NoneCounted(m, f, 2, limit);
    }
  }

  /** A creation uses up one free cluster, or, with the directory full, none. */
  lemma UsesOne(m: Ram, f: Layout, limit: nat, name: Name)
    requires Laid(f, limit) && FreeCount(m, f, 2, limit) > 0
    ensures FreeCount(Create(m, f, name), f, 2, limit)
      == FreeCount(m, f, 2, limit) - (if Outcome(m, f).Created? then 1 else 0)
  {
    FreeIsFound(m, f, limit);
    var r := Outcome(m, f);
    if r.Created? {
      var m' := CreateAt(m, f, name, r.slot, r.cluster);
      NewFat(m, f, limit, name, r.slot, r.cluster);
      forall d | 2 <= d < limit && d != r.cluster ensures Fat(m', f, d) == Fat(m, f, d) {
        OtherFat(m, f, limit, name, r.slot, r.cluster, d);
      }
      CountedAlike(m, m', f, 2, limit, r.cluster);
    }
  }

  /** Names that live entries can have. */
  predicate AllLive(names: seq<Name>) { forall k :: 0 <= k < |names| ==> LiveName(names[k]) }

  predicate LiveName(name: Name) { name[0] != 0x00 && name[0] != 0xE5 }

  /** As many free clusters as names, counted before the run, are room for the whole run. */
  lemma {:induction false} EnoughRoom(m: Ram, f: Layout, limit: nat, names: seq<Name>)
    requires Laid(f, limit) && AllLive(names) && |names| <= FreeCount(m, f, 2, limit)
    ensures Roomy(m, f, limit, names)
    decreases |names|
  {
    if names != [] {
      assert LiveName(names[0]);
      FreeIsFound(m, f, limit);
      UsesOne(m, f, limit, names[0]);
      EnoughRoom(Create(m, f, names[0]), f, limit, names[1..]);
    }
  }

  /** So such a run keeps the volume well-formed, and every file there was. */
  lemma RoomyRunIsSound(m: Ram, f: Layout, limit: nat, names: seq<Name>, files: map<nat, seq<nat>>)
    returns (files': map<nat, seq<nat>>)
    requires Sound(m, f, limit, files) && AllLive(names) && |names| <= FreeCount(m, f, 2, limit)
    ensures Sound(CreateAll(m, f, names), f, limit, files') && Kept(m, CreateAll(m, f, names), f, files, files')
  {
    EnoughRoom(m, f, limit, names);
    files' := RunIsSound(m, f, limit, names, files);
  }

  // ---- freshly formatted volumes ----

  /** The first `k` slots and the first `k` clusters below `limit` are taken, the others are free. */
  ghost predicate Filled(m: Ram, f: Layout, limit: nat, k: nat)
    requires f.Valid() && limit <= CLUSTER_END
  {
    SlotsFilled(m, f, k) && ClustersFilled(m, f, limit, k)
  }

  ghost predicate SlotsFilled(m: Ram, f: Layout, k: nat)
    requires f.Valid()
  {
    forall i :: 0 <= i < f.rdcnt ==> SlotFilled(m, f, k, i)
  }

  ghost predicate ClustersFilled(m: Ram, f: Layout, limit: nat, k: nat)
    requires limit <= CLUSTER_END
  {
    forall c :: 2 <= c < limit ==> ClusterFilled(m, f, k, c)
  }

  predicate SlotFilled(m: Ram, f: Layout, k: nat, i: nat)
    requires f.Valid() && i < 0x1_0000
  {
    if i < k then !IsFreeSlot(m, f, i) else First(m, f, i) == 0
  }

  predicate ClusterFilled(m: Ram, f: Layout, k: nat, c: nat)
    requires c < 0x1_0000
  {
    Fat(m, f, c) == 0 <==> c >= k + 2
  }

  /** File `j` is cluster j + 2. */
  function FirstFiles(k: nat): (files: map<nat, seq<nat>>)
    ensures forall j: nat :: (j in files <==> j < k) && (j in files ==> files[j] == [j + 2])
  {
    if k == 0 then map[] else FirstFiles(k - 1)[k - 1 := [k + 1]]
  }

  /** After `k` creations. */
  ghost predicate HasFirst(m: Ram, f: Layout, limit: nat, k: nat)
  {
    Sound(m, f, limit, FirstFiles(k)) && Filled(m, f, limit, k)
  }

  lemma NextFile(m: Ram, f: Layout, limit: nat, name: Name, k: nat, m': Ram, k': nat)
    requires HasFirst(m, f, limit, k) && LiveName(name) && k < f.rdcnt && k + 2 < limit
    requires m' == Create(m, f, name) && k' == k + 1
    ensures Outcome(m, f) == Created(k, k + 2) && HasFirst(m', f, limit, k')
  {
    NextIs(m, f, limit, k);
    TakesNext(m, f, limit, name, k, FirstFiles(k), m', FirstFiles(k'));
    FillsNext(m, f, limit, name, k, m', k');
  }

  lemma TakesNext(m: Ram, f: Layout, limit: nat, name: Name, k: nat,
                  files: map<nat, seq<nat>>, m': Ram, files': map<nat, seq<nat>>)
    requires Sound(m, f, limit, files) && LiveName(name) && Outcome(m, f) == Created(k, k + 2) && k + 2 < limit
    requires m' == Create(m, f, name) && files' == files[k := [k + 2]]
    ensures Sound(m', f, limit, files')
  {
    KeepsWellFormed(m, f, limit, name, k, k + 2);
    JoinsTheFiles(m, f, limit, name, k, k + 2, files);
  }

  lemma NextIs(m: Ram, f: Layout, limit: nat, k: nat)
    requires f.Valid() && limit <= CLUSTER_END && Filled(m, f, limit, k) && k < f.rdcnt && k + 2 < limit
    ensures Outcome(m, f) == Created(k, k + 2)
  {
    FirstSlotIsFirst(m, f, 0);
    assert SlotFilled(m, f, k, k) && IsFreeSlot(m, f, k);
    var r := FirstSlot(m, f, 0);
    assert r.Some? && SlotFilled(m, f, k, r.value);
    forall c | 2 <= c < k + 2 ensures Fat(m, f, c) != 0 {
      assert ClusterFilled(m, f, k, c);
    }
    assert ClusterFilled(m, f, k, k + 2);
    LowestIs(m, f, k + 2);
  }

  lemma LowestIs(m: Ram, f: Layout, c: nat)
    requires 2 <= c < CLUSTER_END && Fat(m, f, c) == 0 && NoneFree(m, f, 2, c)
    ensures FirstFree(m, f, 2) == c
  {
    FirstFreeIsLowest(m, f, 2);
  }

  lemma FillsNext(m: Ram, f: Layout, limit: nat, name: Name, k: nat, m': Ram, k': nat)
    requires Laid(f, limit) && Filled(m, f, limit, k) && LiveName(name) && k < f.rdcnt && k + 2 < limit
    requires m' == CreateAt(m, f, name, k, k + 2) && k' == k + 1
    ensures Filled(m', f, limit, k')
  {
    forall i | 0 <= i < f.rdcnt ensures SlotFilled(m', f, k', i) {
      assert SlotFilled(m, f, k, i);
      SlotFills(m, f, limit, name, k, i);
    }
    forall c | 2 <= c < limit ensures ClusterFilled(m', f, k', c) {
      assert ClusterFilled(m, f, k, c);
      ClusterFills(m, f, limit, name, k, c);
    }
  }

  lemma SlotFills(m: Ram, f: Layout, limit: nat, name: Name, k: nat, i: nat)
    requires Laid(f, limit) && k < f.rdcnt && k + 2 < limit && LiveName(name)
    requires i < f.rdcnt && SlotFilled(m, f, k, i)
    ensures SlotFilled(CreateAt(m, f, name, k, k + 2), f, k + 1, i)
  {
    var m' := CreateAt(m, f, name, k, k + 2);
    if i == k {
      NewSlot(m, f, name, k, k + 2);
      assert NameAt(m', f, k)[0] == First(m', f, k);
    } else {
      SameFirst(m, f, limit, name, k, k + 2, i);
    }
  }

  lemma ClusterFills(m: Ram, f: Layout, limit: nat, name: Name, k: nat, c: nat)
    requires Laid(f, limit) && k < f.rdcnt && k + 2 < limit
    requires 2 <= c < limit && ClusterFilled(m, f, k, c)
    ensures ClusterFilled(CreateAt(m, f, name, k, k + 2), f, k + 1, c)
  {
    if c == k + 2 {
      NewFat(m, f, limit, name, k, k + 2);
    } else {
      OtherFat(m, f, limit, name, k, k + 2, c);
    }
  }

  /** A property of the volume and a count, kept while creations below `cap` each add one to the count. */
  ghost predicate KeptBelow(P: (Ram, nat) -> bool, f: Layout, cap: nat)
    requires f.Valid()
  {
    forall m: Ram, name: Name, k: nat :: k < cap ==> KeptBy(P, f, m, name, k)
  }

  ghost predicate KeptBy(P: (Ram, nat) -> bool, f: Layout, m: Ram, name: Name, k: nat)
    requires f.Valid()
  {
    P(m, k) && LiveName(name) ==> P(Create(m, f, name), k + 1)
  }

  lemma {:induction false} RunKeeps(P: (Ram, nat) -> bool, m: Ram, f: Layout, names: seq<Name>, k: nat,
                                    m': Ram, n: nat)
    requires f.Valid() && KeptBelow(P, f, n) && P(m, k) && AllLive(names)
    requires m' == CreateAll(m, f, names) && n == k + |names|
    ensures P(m', n)
    decreases |names|
  {
    if names != [] {
      assert LiveName(names[0]);
      assert KeptBy(P, f, m, names[0], k);
      RunKeeps(P, Create(m, f, names[0]), f, names[1..], k + 1, m', n);
    }
  }

  ghost function Filling(f: Layout, limit: nat): (Ram, nat) -> bool
  {
    (m: Ram, k: nat) => HasFirst(m, f, limit, k)
  }

  lemma FillingKept(f: Layout, limit: nat, cap: nat)
    requires f.Valid() && cap <= f.rdcnt && cap + 2 <= limit
    ensures KeptBelow(Filling(f, limit), f, cap)
  {
    forall m: Ram, name: Name, k: nat | k < cap ensures KeptBy(Filling(f, limit), f, m, name, k) {
      FillingStep(f, limit, m, name, k);
    }
  }

  lemma FillingStep(f: Layout, limit: nat, m: Ram, name: Name, k: nat)
    requires f.Valid() && k < f.rdcnt && k + 2 < limit
    ensures KeptBy(Filling(f, limit), f, m, name, k)
  {
    if Filling(f, limit)(m, k) && LiveName(name) {
      NextFile(m, f, limit, name, k, Create(m, f, name), k + 1);
    }
  }

  /** A run takes slots and clusters one after another, as long as there are both. */
  lemma FillsInOrder(m: Ram, f: Layout, limit: nat, names: seq<Name>, m': Ram)
    requires f.Valid() && Filling(f, limit)(m, 0) && AllLive(names) && m' == CreateAll(m, f, names)
    requires |names| <= f.rdcnt && |names| + 2 <= limit
    ensures Filling(f, limit)(m', |names|)
  {
    FillingKept(f, limit, |names|);
    RunKeeps(Filling(f, limit), m, f, names, 0, m', |names|);
  }

  /** Formatted: the root directory and, from entry 2 on, the FATs are zero; entries 0 and 1 are alike. */
  ghost predicate Formatted(m: Ram, f: Layout, limit: nat)
    requires f.Valid() && limit <= CLUSTER_END
  {
    (forall i :: 0 <= i < f.rdcnt ==> First(m, f, i) == 0) && (forall c :: 2 <= c < limit ==> Fat(m, f, c) == 0)
    && Mirrored(m, f, limit)
  }

  lemma {:induction false} AllCounted(m: Ram, f: Layout, lo: nat, hi: nat)
    requires lo <= hi <= CLUSTER_END && forall c :: lo <= c < hi ==> Fat(m, f, c) == 0
    ensures FreeCount(m, f, lo, hi) == hi - lo
    decreases hi
  {
    if lo < hi {
      AllCounted(m, f, lo, hi - 1);
    }
  }

  /** Whatever its boot sector, a mounted, formatted volume that fits 32-bit addresses is sound, and creating
      files gives the j-th one slot j and cluster j + 2, up to all slots or all clusters. */
  lemma FormattedIsSound(m: Ram, limit: nat, names: seq<Name>)
    requires var f := Mounted(m);
      f.bps > 0 && f.spc > 0 && f.nfats > 0 && 2 < limit <= CLUSTER_END && 2 * limit <= FatBytes(f) && Fits(f, limit)
    requires Formatted(m, Mounted(m), limit) && AllLive(names)
    requires |names| <= Mounted(m).rdcnt && |names| <= limit - 2
    ensures var f, m' := Mounted(m), CreateAll(m, Mounted(m), names);
      Sound(m, f, limit, map[]) && FreeCount(m, f, 2, limit) == limit - 2
      && HasFirst(m', f, limit, |names|)
  {
    var f := Mounted(m);
    MountedIsLaid(m, limit);
    assert FirstFiles(0) == map[];
    AllCounted(m, f, 2, limit);
    assert Filling(f, limit)(m, 0);
    FillsInOrder(m, f, limit, names, CreateAll(m, f, names));
  }
}
