/** Lookups over runs of file creations. */
module Fat16Names {
  import opened Options
  import opened Fat16
  import opened Fat16Theorems
  import opened Fat16Runs

  /** Well-formed, with room for one more creation below `limit`. */
  ghost predicate Open(m: Ram, f: Layout, limit: nat)
  {
    Laid(f, limit) && EndMarked(m, f) && Mirrored(m, f, limit) && FirstFree(m, f, 2) < limit
  }

  /** What one creation does to a lookup: the new name, if there was no such file, is found at its slot, or
      nowhere when the directory or the FAT is full; any other name as before. */
  lemma OneCreation(m: Ram, f: Layout, limit: nat, name: Name, other: Name)
    requires Open(m, f, limit) && LiveName(name)
    ensures Laid(f, limit) && EndMarked(Create(m, f, name), f) && Mirrored(Create(m, f, name), f, limit)
    ensures other != name ==> Find(Create(m, f, name), f, other, 0) == Find(m, f, other, 0)
    ensures Find(m, f, name, 0) == None ==> Find(Create(m, f, name), f, name, 0) == SlotOf(m, f)
  {
    var r := Outcome(m, f);
    if r.Created? {
      KeepsWellFormed(m, f, limit, name, r.slot, r.cluster);
      FindsTheNewFile(m, f, limit, name, r.slot, r.cluster);
      if other != name {
        FindsTheOthers(m, f, limit, name, r.slot, r.cluster, other);
      }
    }
  }

  /** The slot a creation takes. */
  function SlotOf(m: Ram, f: Layout): Option<nat>
    requires f.Valid()
  {
    if Outcome(m, f).Created? then Some(Outcome(m, f).slot) else None
  }

  /** The slot that creation `k` of a run takes. */
  function SlotAt(m: Ram, f: Layout, names: seq<Name>, k: nat): Option<nat>
    requires f.Valid() && k <= |names|
  {
    SlotOf(CreateAll(m, f, names[..k]), f)
  }

  lemma SlotLater(m: Ram, f: Layout, names: seq<Name>, k: nat, rest: seq<Name>)
    requires f.Valid() && k <= |names|
    ensures k == 0 ==> SlotAt(m, f, names, k) == SlotOf(m, f)
    ensures k > 0 && rest == names[1..] ==> SlotAt(m, f, names, k) == SlotAt(Create(m, f, names[0]), f, rest, k - 1)
  {
    if k > 0 && rest == names[1..] {
      assert names[..k][0] == names[0] && names[..k][1..] == rest[..k - 1];
    }
  }

  predicate DistinctNames(names: seq<Name>) { forall i, j :: 0 <= i < j < |names| ==> names[i] != names[j] }

  /** Over any run, lookups of names that are not among those created stay as they are. */
  lemma {:induction false} RunKeepsOthers(m: Ram, f: Layout, limit: nat, names: seq<Name>, other: Name, m': Ram)
    requires Laid(f, limit) && EndMarked(m, f) && Mirrored(m, f, limit) && Roomy(m, f, limit, names)
    requires other !in names && m' == CreateAll(m, f, names)
    ensures Find(m', f, other, 0) == Find(m, f, other, 0)
    decreases |names|
  {
    if names != [] {
      assert names[0] in names && forall x :: x in names[1..] ==> x in names;
      OneCreation(m, f, limit, names[0], other);
      RunKeepsOthers(Create(m, f, names[0]), f, limit, names[1..], other, m');
    }
  }

  /** Over any run of creations under distinct names, each name that was not there before is found at the slot
      that its own creation took. */
  lemma {:induction false} RunFindsEach(m: Ram, f: Layout, limit: nat, names: seq<Name>, k: nat, m': Ram)
    requires Laid(f, limit) && EndMarked(m, f) && Mirrored(m, f, limit) && Roomy(m, f, limit, names)
    requires DistinctNames(names) && k < |names| && Find(m, f, names[k], 0) == None && m' == CreateAll(m, f, names)
    ensures Find(m', f, names[k], 0) == SlotAt(m, f, names, k)
    decreases |names|
  {
    var m1, rest := Create(m, f, names[0]), names[1..];
    OneCreation(m, f, limit, names[0], names[k]);
    SlotLater(m, f, names, k, rest);
    if k == 0 {
      RunKeepsOthers(m1, f, limit, rest, names[0], m');
    } else {
      assert rest[k - 1] == names[k];
      RunFindsEach(m1, f, limit, rest, k - 1, m');
    }
  }

  // ---- freshly formatted volumes ----

  lemma NothingThere(m: Ram, f: Layout, limit: nat, name: Name)
    requires f.Valid() && limit <= CLUSTER_END && Formatted(m, f, limit)
    ensures Find(m, f, name, 0) == None
  {
  }

  lemma SlotsInOrder(m: Ram, f: Layout, limit: nat, names: seq<Name>, j: nat)
    requires f.Valid() && Filling(f, limit)(m, 0) && AllLive(names) && j < |names|
    requires |names| <= f.rdcnt && |names| + 2 <= limit
    ensures SlotAt(m, f, names, j) == Some(j)
  {
    var m' := CreateAll(m, f, names[..j]);
    FillsInOrder(m, f, limit, names[..j], m');
    NextIs(m', f, limit, j);
  }

  /** On a freshly formatted volume, whatever its boot sector, the j-th of distinct names is found at slot j, and
      no other name is found. */
  lemma FormattedLookups(m: Ram, limit: nat, names: seq<Name>, name: Name)
    requires var f := Mounted(m);
      f.bps > 0 && f.spc > 0 && f.nfats > 0 && 2 < limit <= CLUSTER_END && 2 * limit <= FatBytes(f) && Fits(f, limit)
    requires Formatted(m, Mounted(m), limit) && AllLive(names) && DistinctNames(names)
    requires |names| <= Mounted(m).rdcnt && |names| <= limit - 2
    ensures var r := Find(CreateAll(m, Mounted(m), names), Mounted(m), name, 0);
      if name in names then r.Some? && r.value < |names| && names[r.value] == name else r == None
  {
    var f := Mounted(m);
    var m' := CreateAll(m, f, names);
    FormattedIsSound(m, limit, names);
    EnoughRoom(m, f, limit, names);
    NothingThere(m, f, limit, name);
    if name in names {
      var j :| 0 <= j < |names| && names[j] == name;
      RunFindsEach(m, f, limit, names, j, m');
      FormattedFills(m, f, limit);
      SlotsInOrder(m, f, limit, names, j);
    } else {
      RunKeepsOthers(m, f, limit, names, name, m');
    }
  }

  lemma FormattedFills(m: Ram, f: Layout, limit: nat)
    requires Sound(m, f, limit, map[]) && Formatted(m, f, limit)
    ensures Filling(f, limit)(m, 0)
  {
    assert FirstFiles(0) == map[];
  }
}
