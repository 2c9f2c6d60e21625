/** Paths byte by byte: what an entry has to hold to match a component, and what a path through a directory
    resolves to and opens. */
module FatDirectory {
  import opened Options
  import opened Machine32
  import opened Bits
  import opened Fat16
  import opened Fat16Bytes
  import Fat16Volume
  import opened FatChain
  import opened FatPath
  import opened FatFile
  import FatCopy

  // ---- an entry's eleven bytes ----

  /** Byte `k` of a field of a directory entry that holds `s`: a lower-case letter raised, blanks behind. */
  predicate FieldByte(b: Byte, s: seq<Byte>, k: nat)
  {
    if k >= |s| then b == 0x20 else if 0x61 <= s[k] <= 0x7A then b == s[k] - 0x20 else b == s[k]
  }

  /** The first `n` bytes of the field are those of `s`. */
  ghost predicate FieldHolds(e: seq<Byte>, s: seq<Byte>, n: nat)
    requires n <= |e|
  {
    forall k :: 0 <= k < n ==> FieldByte(e[k], s, k)
  }

  /** A component splits at its last dot, if it has one. */
  predicate SplitsInto(comp: seq<Byte>, base: seq<Byte>, ext: seq<Byte>)
  {
    if 0x2E in comp then comp == base + [0x2E] + ext && 0x2E !in ext else base == comp && ext == []
  }

  lemma SplitIs(comp: seq<Byte>, base: seq<Byte>, ext: seq<Byte>)
    requires SplitsInto(comp, base, ext)
    ensures Base(comp) == base && Ext(comp) == ext
  {
    if 0x2E in comp {
      forall k | |base| < k < |comp| ensures comp[k] != 0x2E {
        assert comp[k] == ext[k - |base| - 1];
      }
      assert comp[|base|] == 0x2E && Last(comp, DOT) == |base|;
    } else {
      assert Last(comp, DOT) == -1;
    }
  }

  lemma FieldIsHeld(e: seq<Byte>, s: seq<Byte>, n: nat, w: nat)
    requires n <= |e| && n <= w
    ensures e[..n] == Field(s, w)[..n] <==> FieldHolds(e, s, n)
  {
    if e[..n] == Field(s, w)[..n] {
      forall k | 0 <= k < n ensures FieldByte(e[k], s, k) {
        assert e[..n][k] == Field(s, w)[..n][k];
      }
    }
    if FieldHolds(e, s, n) {
      forall k | 0 <= k < n ensures e[..n][k] == Field(s, w)[..n][k] {
        assert FieldByte(e[k], s, k);
      }
    }
  }

  /** An entry matches a component exactly when its eight name bytes and three extension bytes hold the parts; or
      when the base has more than eight bytes, six of them are held, a tilde follows, and the extension is held. */
  lemma MatchInBytes(e: Name, comp: seq<Byte>, base: seq<Byte>, ext: seq<Byte>)
    requires SplitsInto(comp, base, ext)
    ensures EntryMatches(e, comp) <==>
      FieldHolds(e[8..], ext, 3)
      && (FieldHolds(e, base, 8) || (|base| > 8 && FieldHolds(e, base, 6) && e[6] == 0x7E))
  {
    SplitIs(comp, base, ext);
    var short := Short(comp);
    assert short[..8] == Field(base, 8) && short[8..] == Field(ext, 3) && short[..6] == Field(base, 8)[..6];
    assert e == e[..8] + e[8..] && short == short[..8] + short[8..];
    assert e[8..][..3] == e[8..] && Field(ext, 3)[..3] == Field(ext, 3) && Field(base, 8)[..8] == Field(base, 8);
    FieldIsHeld(e, base, 8, 8);
    FieldIsHeld(e, base, 6, 8);
    FieldIsHeld(e[8..], ext, 3, 3);
  }

  /** A slot can be a search's answer exactly when it is in use, no volume label, under the root does not start with
      a dot, and its eleven bytes match. */
  lemma HitInBytes(m: Ram, e: nat, dots: bool, comp: seq<Byte>, base: seq<Byte>, ext: seq<Byte>)
    requires e + 32 <= SPACE && SplitsInto(comp, base, ext)
    ensures Hit(m, e, dots, comp) <==>
      m[e] != 0x00 && m[e] != 0xE5 && m[e + 11] / 8 % 2 == 0 && (dots ==> m[e] != 0x2E)
      && FieldHolds(m[e + 8..e + 11], ext, 3)
      && (FieldHolds(m[e..e + 11], base, 8)
          || (|base| > 8 && FieldHolds(m[e..e + 11], base, 6) && m[e + 6] == 0x7E))
  {
    LabelBit(m[e + 11]);
    MatchInBytes(m[e..e + 11], comp, base, ext);
    assert m[e..e + 11][8..] == m[e + 8..e + 11];
  }

  // ---- a directory's slots ----

  /** The clusters of a chain: each from 2 to 0xFFF6, each FAT entry naming the next, the last one none. */
  ghost predicate Visits(m: Ram, f: Layout, c: nat, cs: seq<nat>)
    requires c < 0x1_0000
  {
    if cs == [] then !(2 <= c < 0xFFF7)
    else
      && cs[0] == c && (forall k :: 0 <= k < |cs| ==> 2 <= cs[k] < 0xFFF7)
      && (forall k :: 0 <= k < |cs| - 1 ==> Fat(m, f, cs[k]) == cs[k + 1])
      && !(2 <= Fat(m, f, cs[|cs| - 1]) < 0xFFF7)
  }

  lemma {:induction false} VisitsLeads(m: Ram, f: Layout, c: nat, cs: seq<nat>)
    requires c < 0x1_0000 && Visits(m, f, c, cs)
    ensures Leads(m, f, c, cs)
    decreases |cs|
  {
    if cs != [] {
      var rest := cs[1..];
      assert forall k :: 0 <= k < |rest| ==> rest[k] == cs[k + 1];
      VisitsLeads(m, f, Fat(m, f, c), rest);
    }
  }

  /** The slots of a chain: 32 bytes each, cluster after cluster. */
  lemma {:induction false} SlotsOfChain(f: Layout, cs: seq<nat>, k: nat, i: nat)
    requires f.Valid() && k < |cs| && i < ClusterBytes(f) / 32
    ensures var n := ClusterBytes(f) / 32;
      k * n + i < |DirSlots(f, cs)| == |cs| * n && DirSlots(f, cs)[k * n + i] == Cluster(f, cs[k]) + 32 * i
    decreases |cs|
  {
    var n, rest := ClusterBytes(f) / 32, cs[1..];
    SlotCount(f, cs);
    SlotCount(f, rest);
    Later(|cs|, k, i, n);
    if k == 0 {
      assert k * n == 0;
    } else {
      SlotsOfChain(f, rest, k - 1, i);
      assert k * n + i == n + ((k - 1) * n + i);
    }
  }

  lemma Later(len: nat, k: nat, i: nat, n: nat)
    requires k < len && i < n
    ensures k * n + i < len * n && 0 <= k * n && len * n == n + (len - 1) * n
  {
    AtLeastOne(n, len - k);
    Sum(k, len - k, n);
    Sum(1, len - 1, n);
    Sum(0, k, n);
  }

  lemma Sum(a: nat, b: nat, n: nat)
    ensures (a + b) * n == a * n + b * n && b * n >= 0
  {
  }

  lemma {:induction false} SlotCount(f: Layout, cs: seq<nat>)
    requires f.Valid()
    ensures |DirSlots(f, cs)| == |cs| * (ClusterBytes(f) / 32)
    decreases |cs|
  {
    var n := ClusterBytes(f) / 32;
    if cs == [] {
      assert |cs| * n == 0;
    } else {
      SlotCount(f, cs[1..]);
      assert |cs| * n == n + (|cs| - 1) * n;
    }
  }

  // ---- a path with a directory in it ----

  /** `dir` and `name` with a slash between them, short enough for the buffer. */
  predicate Joins(path: seq<Byte>, dir: seq<Byte>, name: seq<Byte>)
  {
    path == dir + [0x2F] + name && 0x2F !in dir && |path| < 64
  }

  lemma FirstSlash(path: seq<Byte>, dir: seq<Byte>, name: seq<Byte>)
    requires path == dir + [0x2F] + name && 0x2F !in dir
    ensures FirstOf(path, SLASH) == |dir| && path[..|dir|] == dir && path[|dir| + 1..] == name
  {
    assert path[|dir|] == 0x2F;
    forall k | 0 <= k < |dir| ensures path[k] != 0x2F {
      assert path[k] == dir[k] && dir[k] in dir;
    }
  }

  lemma DirectoryBit(b: Byte)
    ensures And(b, 0x10) != 0 <==> b / 16 % 2 == 1
  {
    assert Pow2(4) == 16;
    AndBit(b, 4);
    ShrIs(b, 4, 16);
  }

  lemma ParentIs(m: Ram, f: Layout, path: seq<Byte>, dir: seq<Byte>, name: seq<Byte>, i: nat, e: nat)
    requires f.Valid() && Joins(path, dir, name) && i < f.rdcnt && e == Slot(f, i)
    requires FirstHit(m, RootSlots(f), false, dir, i)
    ensures ParentOf(m, f, path) == if m[e + 11] / 16 % 2 == 1 then Some(e) else None
  {
    FirstSlash(path, dir, name);
    ScanFindsFirst(m, RootSlots(f), false, dir);
    DirectoryBit(m[e + 11]);
  }

  /** Where the first root entry under `dir` is `e`: the path enters it only if bit 4 of its attributes is set, and
      then finds the first live entry under `name` among the slots of its chain; without the bit, nothing. */
  lemma PathThroughDirectory(m: Ram, f: Layout, path: seq<Byte>, dir: seq<Byte>, name: seq<Byte>, i: nat, e: nat,
                             cs: seq<nat>)
    requires f.Valid() && Joins(path, dir, name) && i < f.rdcnt && e == Slot(f, i)
    requires FirstHit(m, RootSlots(f), false, dir, i)
    requires Visits(m, f, m[e + 26] as int + 256 * m[e + 27] as int, cs)
    ensures PathAnswers(m, f, path)
    ensures m[e + 11] / 16 % 2 == 0 ==> Resolve(m, f, path) == None
    ensures m[e + 11] / 16 % 2 == 1 ==>
      forall g: Address ::
        Resolve(m, f, path) == Some(g)
        <==> exists k: nat :: FirstHit(m, DirSlots(f, cs), true, name, k) && DirSlots(f, cs)[k] == g
  {
    var c := m[e + 26] as int + 256 * m[e + 27] as int;
    assert FirstCluster(m, e) == c;
    FirstSlash(path, dir, name);
    ParentIs(m, f, path, dir, name, i, e);
    VisitsLeads(m, f, c, cs);
    TheWalk(m, f, c, cs);
    ScanIsFirst(m, DirSlots(f, cs), true, name, Resolve(m, f, path), m[e + 11] / 16 % 2 == 1);
  }

  lemma EntersDirectory(m: Ram, f: Layout, path: seq<Byte>, dir: seq<Byte>, name: seq<Byte>, i: nat, e: nat,
                        cs: seq<nat>, k: nat, g: Address)
    requires f.Valid() && Joins(path, dir, name) && i < f.rdcnt && e == Slot(f, i)
    requires FirstHit(m, RootSlots(f), false, dir, i) && m[e + 11] / 16 % 2 == 1
    requires Visits(m, f, m[e + 26] as int + 256 * m[e + 27] as int, cs)
    requires FirstHit(m, DirSlots(f, cs), true, name, k) && DirSlots(f, cs)[k] == g
    ensures PathAnswers(m, f, path) && Resolve(m, f, path) == Some(g)
  {
    PathThroughDirectory(m, f, path, dir, name, i, e, cs);
  }

  lemma ScanIsFirst(m: Ram, es: seq<Address>, dots: bool, comp: seq<Byte>, r: Option<Address>, entered: bool)
    requires entered ==> r == Scan(m, es, dots, comp)
    ensures entered ==>
      forall g: Address ::
        r == Some(g) <==> exists k: nat :: FirstHit(m, es, dots, comp, k) && es[k] == g
  {
    ScanFindsFirst(m, es, dots, comp);
  }

  /** Without an entry under `dir` in the root, nothing. */
  lemma NoSuchDirectory(m: Ram, f: Layout, path: seq<Byte>, dir: seq<Byte>, name: seq<Byte>)
    requires f.Valid() && Joins(path, dir, name) && forall i: nat :: !FirstHit(m, RootSlots(f), false, dir, i)
    ensures PathAnswers(m, f, path) && Resolve(m, f, path) == None
  {
    FirstSlash(path, dir, name);
    ScanFindsFirst(m, RootSlots(f), false, dir);
  }

  /** A path without a slash is looked up in the root; one of 64 bytes or more is not looked up at all. */
  lemma PathInRoot(m: Ram, f: Layout, path: seq<Byte>)
    requires f.Valid()
    ensures |path| >= 64 ==> Resolve(m, f, path) == None
    ensures |path| < 64 && 0x2F !in path ==>
      PathAnswers(m, f, path)
      && forall g: Address ::
           Resolve(m, f, path) == Some(g)
           <==> exists i: nat :: FirstHit(m, RootSlots(f), false, path, i) && RootSlots(f)[i] == g
  {
    ScanFindsFirst(m, RootSlots(f), false, path);
    assert forall k :: 0 <= k < |path| ==> path[k] in path;
  }

  // ---- what opening it yields ----

  /** The first `n` bytes of the chain's clusters, one after another. */
  ghost predicate HoldsChain(data: seq<Byte>, m: Ram, f: Layout, cs: seq<nat>, n: nat)
    requires f.Valid()
  {
    n <= |data| && n <= |Joined(m, f, cs)| && data[..n] == Joined(m, f, cs)[..n]
  }

  predicate ByteAt(s: seq<Byte>, k: int, b: Byte) { 0 <= k < |s| && s[k] == b }

  /** Byte `i` of cluster `k` of the chain. */
  lemma {:induction false} JoinedByte(m: Ram, f: Layout, cs: seq<nat>, k: nat, i: nat)
    requires f.Valid() && k < |cs| && i < ClusterBytes(f)
    ensures |Joined(m, f, cs)| == |cs| * ClusterBytes(f)
    ensures ByteAt(Joined(m, f, cs), k * ClusterBytes(f) + i, m[Cluster(f, cs[k]) + i])
    decreases |cs|
  {
    var n, rest := ClusterBytes(f), cs[1..];
    JoinedLength(m, f, cs);
    JoinedLength(m, f, rest);
    Later(|cs|, k, i, n);
    if k == 0 {
      assert k * n == 0;
      InFirst(Data(m, f, cs[0]), Joined(m, f, rest), i);
    } else {
      JoinedByte(m, f, rest, k - 1, i);
      Sum(1, k - 1, n);
      InSecond(Data(m, f, cs[0]), Joined(m, f, rest), (k - 1) * n + i, k * n + i,
               m[Cluster(f, cs[k]) + i]);
    }
  }

  lemma InFirst(a: seq<Byte>, b: seq<Byte>, i: nat)
    requires i < |a|
    ensures ByteAt(a + b, i, a[i])
  {
  }

  lemma InSecond(a: seq<Byte>, b: seq<Byte>, i: nat, j: nat, c: Byte)
    requires ByteAt(b, i, c) && j == |a| + i
    ensures ByteAt(a + b, j, c)
  {
  }

  lemma {:induction false} JoinedLength(m: Ram, f: Layout, cs: seq<nat>)
    requires f.Valid()
    ensures |Joined(m, f, cs)| == |cs| * ClusterBytes(f)
    decreases |cs|
  {
    var n := ClusterBytes(f);
    if cs == [] {
      assert |cs| * n == 0;
    } else {
      JoinedLength(m, f, cs[1..]);
      assert |cs| * n == n + (|cs| - 1) * n;
    }
  }

  /** What is stored under a first cluster is what its chain's clusters hold, up to the size. */
  lemma StoredIsChain(m: Ram, f: Layout, c: nat, size: nat, cs: seq<nat>)
    requires f.Valid() && c < 0x1_0000 && Visits(m, f, c, cs) && ClusterBytes(f) > 0
    ensures var n := Min(|Joined(m, f, cs)|, size);
      n == Min(|Stored(m, f, c, size)|, size) && Stored(m, f, c, size)[..n] == Joined(m, f, cs)[..n]
  {
    VisitsLeads(m, f, c, cs);
    if |cs| < size {
      LeadsFollows(m, f, c, cs, size);
    } else {
      LeadsPrefix(m, f, c, cs, size);
      PrefixJoined(m, f, cs, size);
    }
  }

  /** As many clusters as bytes are wanted hold them all. */
  lemma PrefixJoined(m: Ram, f: Layout, cs: seq<nat>, size: nat)
    requires f.Valid() && size <= |cs| && ClusterBytes(f) > 0
    ensures var s, t := Joined(m, f, cs[..size]), Joined(m, f, cs);
      size <= |s| <= |t| && s[..size] == t[..size]
  {
    var s, t := Joined(m, f, cs[..size]), Joined(m, f, cs[size..]);
    JoinedAppend(m, f, cs[..size], cs[size..]);
    assert cs[..size] + cs[size..] == cs;
    JoinedLength(m, f, cs[..size]);
    AtLeastOne(size, ClusterBytes(f));
    assert (s + t)[..size] == s[..size];
  }

  lemma AtLeastOne(a: nat, b: nat)
    requires b > 0
    ensures a * b >= a
  {
  }

  lemma {:induction false} LeadsPrefix(m: Ram, f: Layout, c: nat, cs: seq<nat>, n: nat)
    requires c < 0x1_0000 && Leads(m, f, c, cs) && n <= |cs|
    ensures Follow(m, f, c, n) == cs[..n]
    decreases n
  {
    if n > 0 {
      LeadsPrefix(m, f, Fat(m, f, c), cs[1..], n - 1);
      assert cs[..n] == [cs[0]] + cs[1..][..n - 1];
    }
  }

  /** Opening such a path: the entry found, and of its chain `ds` as many bytes as its size says and the clusters
      hold. */
  method OpenThroughDirectory(v: Fat16Volume.Volume, path: seq<Byte>, ghost dir: seq<Byte>, ghost name: seq<Byte>,
                              ghost i: nat, ghost e: nat, ghost cs: seq<nat>, ghost k: nat, ghost g: Address,
                              ghost ds: seq<nat>)
    returns (r: Opened)
    requires v.Valid() && ClusterBytes(v.f) > 0 && Joins(path, dir, name) && i < v.f.rdcnt && e == Slot(v.f, i)
    requires FirstHit(v.ram[..], RootSlots(v.f), false, dir, i) && v.ram[e + 11] / 16 % 2 == 1
    requires Visits(v.ram[..], v.f, v.ram[e + 26] as int + 256 * v.ram[e + 27] as int, cs)
    requires FirstHit(v.ram[..], DirSlots(v.f, cs), true, name, k) && DirSlots(v.f, cs)[k] == g
    requires Visits(v.ram[..], v.f, v.ram[g + 26] as int + 256 * v.ram[g + 27] as int, ds)
    requires FatCopy.CopyFits(v.ram[..], v.f, FirstCluster(v.ram[..], g), SizeOf(v.ram[..], g))
    ensures r.File?
    ensures r.size == v.ram[g + 28] as int + 0x100 * v.ram[g + 29] as int + 0x1_0000 * v.ram[g + 30] as int
                      + 0x100_0000 * v.ram[g + 31] as int
    ensures HoldsChain(r.data[..], v.ram[..], v.f, ds, Min(|Joined(v.ram[..], v.f, ds)|, r.size))
  {
    ghost var m, c := v.ram[..], FirstCluster(v.ram[..], g);
    EntersDirectory(m, v.f, path, dir, name, i, e, cs, k, g);
    r := Open(v, path);
    StoredIsChain(m, v.f, c, r.size, ds);
    ghost var n := Min(|Joined(m, v.f, ds)|, r.size);
    assert r.data[..n] == r.data[..][..n];
  }
}
