/** Opening a file: resolving its path and gathering its cluster chain into one buffer. */
module FatFile {
  import opened Options
  import opened Machine32
  import opened Bits
  import opened Fat16
  import opened Fat16Volume
  import opened FatChain
  import opened FatPath
  import opened FatCopy

  // ---- paths ----

  /** The position of the first `c` in `s`, or its length. */
  function FirstOf(s: seq<Byte>, c: Byte): (r: nat)
    ensures r <= |s| && (r < |s| ==> s[r] == c) && forall k :: 0 <= k < r ==> s[k] != c
  {
    if s == [] || s[0] == c then 0 else 1 + FirstOf(s[1..], c)
  }

  const PATH_BUFFER: nat := 64
  const DIRECTORY: nat := 0x10

  function WalkFrom(m: Ram, f: Layout, c: nat): seq<nat>
    requires c < 0x1_0000
  {
    Follow(m, f, c, CLUSTER_END)
  }

  function FirstCluster(m: Ram, e: Address): (c: nat)
    ensures c < 0x1_0000
  {
    Word(m, e + 26)
  }

  function SizeOf(m: Ram, e: Address): (n: nat)
    ensures IsU32(n)
  {
    Word32(m, e + 28)
  }

  /** The entry of the directory that a two-part path names first. */
  function ParentOf(m: Ram, f: Layout, path: seq<Byte>): (r: Option<Address>)
    requires f.Valid()
  {
    var s := FirstOf(path, SLASH);
    if |path| >= PATH_BUFFER || s == |path| then None
    else
      var d := Scan(m, RootSlots(f), false, path[..s]);
      if d.Some? && And(m[d.value + 11], DIRECTORY) != 0 then d else None
  }

  function Resolve(m: Ram, f: Layout, path: seq<Byte>): (r: Option<Address>)
    requires f.Valid()
  {
    var s := FirstOf(path, SLASH);
    if |path| >= PATH_BUFFER then None
    else if s == |path| then Scan(m, RootSlots(f), false, path)
    else
      var d := ParentOf(m, f, path);
      if d == None then None
      else Scan(m, DirSlots(f, WalkFrom(m, f, FirstCluster(m, d.value))), true, path[s + 1..])
  }

  method FindFirst(s: seq<Byte>, c: Byte) returns (i: nat)
    ensures i == FirstOf(s, c)
  {
    i := 0;
    while i < |s| && s[i] != c
      invariant 0 <= i <= |s| && FirstOf(s, c) == i + FirstOf(s[i..], c)
    {
      assert s[i..][1..] == s[i + 1..];
      i := i + 1;
    }
  }

  /** The search of the directory that a two-part path enters, if it enters one, ends. */
  ghost predicate PathAnswers(m: Ram, f: Layout, path: seq<Byte>)
    requires f.Valid()
  {
    var d := ParentOf(m, f, path);
    d.Some? ==> Answers(m, f, FirstCluster(m, d.value), path[FirstOf(path, SLASH) + 1..])
  }

  method ResolvePath(v: Volume, path: seq<Byte>) returns (r: Option<Address>)
    requires v.Valid() && PathAnswers(v.ram[..], v.f, path)
    ensures r == Resolve(v.ram[..], v.f, path)
  {
    ghost var m := v.ram[..];
    if |path| >= PATH_BUFFER {
      return None;
    }
    var s := FindFirst(path, SLASH);
    if s == |path| {
      r := FindInRoot(v, path);
      return;
    }
    var d := FindInRoot(v, path[..s]);
    if d == None || And(v.ram[d.value + 11], DIRECTORY) == 0 {
      return None;
    }
    r := FindBelow(v, d.value, path[s + 1..]);
  }

  method FindBelow(v: Volume, d: Address, comp: seq<Byte>) returns (r: Option<Address>)
    requires v.Valid() && Answers(v.ram[..], v.f, FirstCluster(v.ram[..], d), comp)
    ensures r == Scan(v.ram[..], DirSlots(v.f, WalkFrom(v.ram[..], v.f, FirstCluster(v.ram[..], d))), true, comp)
  {
    var c := v.Read16(d + 26);
    r := FindInDir(v, c, comp);
  }

  // ---- file contents ----

  /** The clusters' bytes, one after another. */
  function Joined(m: Ram, f: Layout, cs: seq<nat>): seq<Byte>
    requires f.Valid()
  {
    if cs == [] then [] else Data(m, f, cs[0]) + Joined(m, f, cs[1..])
  }

  lemma {:induction false} JoinedSnoc(m: Ram, f: Layout, cs: seq<nat>, c: nat)
    requires f.Valid()
    ensures Joined(m, f, cs + [c]) == Joined(m, f, cs) + Data(m, f, c)
  {
    if cs == [] {
      assert [c][1..] == [] && [] + [c] == [c];
    } else {
      JoinedSnoc(m, f, cs[1..], c);
      assert (cs + [c])[1..] == cs[1..] + [c];
    }
  }

  lemma {:induction false} JoinedAppend(m: Ram, f: Layout, cs: seq<nat>, ds: seq<nat>)
    requires f.Valid()
    ensures Joined(m, f, cs + ds) == Joined(m, f, cs) + Joined(m, f, ds)
  {
    if cs == [] {
      assert cs + ds == ds;
    } else {
      JoinedAppend(m, f, cs[1..], ds);
      assert (cs + ds)[1..] == cs[1..] + ds && (cs + ds)[0] == cs[0];
      Associative(Data(m, f, cs[0]), Joined(m, f, cs[1..]), Joined(m, f, ds));
    }
  }

  lemma Associative(a: seq<Byte>, b: seq<Byte>, c: seq<Byte>)
    ensures a + (b + c) == (a + b) + c
  {
  }

  /** What the chain from cluster `c` holds of a file of `size` bytes. */
  function Stored(m: Ram, f: Layout, c: nat, size: nat): seq<Byte>
    requires f.Valid() && c < 0x1_0000
  {
    Joined(m, f, Follow(m, f, c, size))
  }

  lemma CopyStep(m: Ram, f: Layout, done: seq<nat>, c: nat, copied: nat, size: nat, k: nat)
    requires f.Valid() && copied == |Joined(m, f, done)| < size && k == Min(ClusterBytes(f), size - copied)
    ensures var j := Joined(m, f, done + [c]);
      copied + k == Min(|j|, size)
      && Joined(m, f, done)[..copied] + m[Cluster(f, c)..Cluster(f, c) + k] == j[..copied + k]
  {
    JoinedSnoc(m, f, done, c);
    var d := Data(m, f, c);
    assert d[..k] == m[Cluster(f, c)..Cluster(f, c) + k];
    assert (Joined(m, f, done) + d)[..copied + k] == Joined(m, f, done) + d[..k];
  }

  lemma FollowStep(m: Ram, f: Layout, start: nat, done: seq<nat>, c: nat, left: nat, size: nat)
    requires start < 0x1_0000 && InUse(c) && left > 0 && Ahead(m, f, start, done, c, left, size)
    ensures Ahead(m, f, start, done + [c], Fat(m, f, c), left - 1, size)
  {
  }

  lemma OnePass(m: Ram, f: Layout, start: nat, size: nat, i: nat, s: State, done: seq<nat>, left: nat)
    returns (left': nat)
    requires f.Valid() && start < 0x1_0000 && IsU32(size) && AtPass(m, f, start, size, i, s, done, left)
    requires s.Running(size) && RightAt(m, f, start, size, i)
    ensures var k := ToCopy(s.copied, ClusterBytes(f), size);
      AtPass(m, f, start, size, i + 1, State(Fat(m, f, s.c), s.copied + k), done + [s.c], left')
  {
    left' := left;
    PassSum(s.copied, ClusterBytes(f), size);
    AfterNext(m, f, start, size, i);
    if ClusterBytes(f) > 0 {
      FollowStep(m, f, start, done, s.c, left, size);
      left' := left - 1;
    }
  }

  lemma PassSum(copied: nat, n: nat, size: nat)
    requires copied < size < TWO32 && ToCopy(copied, n, size) == Min(n, size - copied)
    ensures var k := ToCopy(copied, n, size);
      U32(copied + k) == copied + k <= size && (n > 0 ==> k > 0)
  {
  }

  lemma AfterNext(m: Ram, f: Layout, c: nat, size: nat, i: nat)
    requires f.Valid() && c < 0x1_0000 && After(m, f, c, size, i).Running(size)
    ensures var s := After(m, f, c, size, i);
      After(m, f, c, size, i + 1) == State(Fat(m, f, s.c), U32(s.copied + ToCopy(s.copied, ClusterBytes(f), size)))
  {
  }

  /** Before pass `i`: the loop's variables, and the clusters passed and left. */
  ghost predicate AtPass(m: Ram, f: Layout, start: nat, size: nat, i: nat, s: State, done: seq<nat>, left: nat)
    requires f.Valid() && start < 0x1_0000
  {
    After(m, f, start, size, i) == s && s.copied <= size
    && (ClusterBytes(f) > 0 ==> left >= size - s.copied && Ahead(m, f, start, done, s.c, left, size))
  }

  lemma GatheredAll(m: Ram, f: Layout, done: seq<nat>, rest: seq<nat>, b: seq<Byte>, copied: nat, size: nat)
    requires f.Valid() && Gathered(m, f, done, b, copied, size) && (copied < size ==> rest == [])
    ensures var s := Joined(m, f, done + rest); Min(|s|, size) <= |b| && b[..Min(|s|, size)] == s[..Min(|s|, size)]
  {
    JoinedAppend(m, f, done, rest);
  }

  lemma Complete(m: Ram, f: Layout, start: nat, size: nat, i: nat, s: State, done: seq<nat>, left: nat, b: seq<Byte>)
    requires f.Valid() && start < 0x1_0000 && AtPass(m, f, start, size, i, s, done, left) && !s.Running(size)
    requires Gathered(m, f, done, b, s.copied, size)
    ensures var r := Stored(m, f, start, size); Min(|r|, size) <= |b| && b[..Min(|r|, size)] == r[..Min(|r|, size)]
  {
    if ClusterBytes(f) > 0 {
      GatheredAll(m, f, done, Follow(m, f, s.c, left), b, s.copied, size);
    } else {
      JoinedNothing(m, f, Follow(m, f, start, size));
    }
  }

  lemma {:induction false} JoinedNothing(m: Ram, f: Layout, cs: seq<nat>)
    requires f.Valid() && ClusterBytes(f) == 0
    ensures Joined(m, f, cs) == []
  {
    if cs != [] {
      JoinedNothing(m, f, cs[1..]);
    }
  }

  /** What the walk has still to visit. */
  ghost predicate Ahead(m: Ram, f: Layout, start: nat, done: seq<nat>, c: nat, left: nat, size: nat)
    requires start < 0x1_0000 && c < 0x1_0000
  {
    Follow(m, f, start, size) == done + Follow(m, f, c, left)
  }

  /** The first `copied` bytes of the buffer are those of the clusters `done`. */
  ghost predicate Gathered(m: Ram, f: Layout, done: seq<nat>, b: seq<Byte>, copied: nat, size: nat)
    requires f.Valid()
  {
    copied <= |b| && copied == Min(|Joined(m, f, done)|, size) && b[..copied] == Joined(m, f, done)[..copied]
  }

  lemma Passes(m: Ram, f: Layout, start: nat, size: nat) returns (end: nat)
    requires f.Valid() && start < 0x1_0000 && IsU32(size) && CopyFits(m, f, start, size)
    ensures !After(m, f, start, size, end).Running(size)
  {
    CopyWorksWhen(m, f, start, size);
    end :| !After(m, f, start, size, end).Running(size);
  }

  /** Copies the chain from `start` into `buf`, pass by pass. */
  method Gather(v: Volume, start: nat, buf: array<Byte>, size: nat)
    requires v.Valid() && start < 0x1_0000 && IsU32(size) && CopyFits(v.ram[..], v.f, start, size)
    requires buf.Length == size + 1 && buf != v.ram
    modifies buf
    ensures var s := Stored(v.ram[..], v.f, start, size); buf[..Min(|s|, size)] == s[..Min(|s|, size)]
  {
    ghost var m := v.ram[..];
    var c, copied := start, 0;
    ghost var done, left := [], size;
    ghost var end := Passes(m, v.f, start, size);
    ghost var i := 0;
    assert buf[..0] == Joined(m, v.f, done)[..0];
    while InUse(c) && copied < size
      invariant v.ram[..] == m && c < 0x1_0000 && 0 <= copied <= size && i <= end
      invariant AtPass(m, v.f, start, size, i, State(c, copied), done, left)
      invariant Gathered(m, v.f, done, buf[..], copied, size)
      decreases end - i
    {
      c, copied, done, left := CopyPass(v, start, buf, size, c, copied, i, done, left);
      i := i + 1;
    }
    Complete(m, v.f, start, size, i, State(c, copied), done, left, buf[..]);
    AllPrefixes(buf);
  }

  /** One pass of the loop. */
  method CopyPass(v: Volume, ghost start: nat, buf: array<Byte>, size: nat, c: nat, copied: nat,
                  ghost i: nat, ghost done: seq<nat>, ghost left: nat)
    returns (c': nat, copied': nat, ghost done': seq<nat>, ghost left': nat)
    requires v.Valid() && start < 0x1_0000 && IsU32(size) && SumsFit(v.ram[..], v.f, start, size)
    requires buf.Length == size + 1 && buf != v.ram && c < 0x1_0000 && State(c, copied).Running(size)
    requires AtPass(v.ram[..], v.f, start, size, i, State(c, copied), done, left)
    requires Gathered(v.ram[..], v.f, done, buf[..], copied, size)
    modifies buf
    ensures c' < 0x1_0000 && AtPass(v.ram[..], v.f, start, size, i + 1, State(c', copied'), done', left')
    ensures Gathered(v.ram[..], v.f, done', buf[..], copied', size)
  {
    ghost var m := v.ram[..];
    RightWhen(m, v.f, start, size, i);
    var k := CopyCluster(v, c, buf, copied, size, done);
    left' := OnePass(m, v.f, start, size, i, State(c, copied), done, left);
    done', copied' := done + [c], copied + k;
    c' := v.Read16(Fat1(v.f) + 2 * c);
    assert v.ram[..] == m;
  }

  lemma AllPrefixes(a: array<Byte>)
    ensures forall n :: 0 <= n <= a.Length ==> a[..n] == a[..][..n]
  {
  }

  method CopyCluster(v: Volume, c: nat, buf: array<Byte>, copied: nat, size: nat, ghost done: seq<nat>)
    returns (k: nat)
    requires v.Valid() && buf.Length == size + 1 && buf != v.ram && copied < size < TWO32
    requires ToCopy(copied, ClusterBytes(v.f), size) == Min(ClusterBytes(v.f), size - copied)
    requires Gathered(v.ram[..], v.f, done, buf[..], copied, size)
    modifies buf
    ensures k == ToCopy(copied, ClusterBytes(v.f), size)
    ensures Gathered(v.ram[..], v.f, done + [c], buf[..], copied + k, size)
  {
    k := ToCopy(copied, ClusterBytes(v.f), size);
    CopyStep(v.ram[..], v.f, done, c, copied, size, k);
    assert v.ram[Cluster(v.f, c)..Cluster(v.f, c) + k] == v.ram[..][Cluster(v.f, c)..Cluster(v.f, c) + k];
    assert buf[..copied] == buf[..][..copied];
    Copy(v.ram, Cluster(v.f, c), buf, copied, k);
    assert buf[..][..copied + k] == buf[..copied + k];
  }

  /** Reads the file whose entry is at `e`: as many of its first `size` bytes as its chain holds, and
      a final 0. */
  method Load(v: Volume, e: Address) returns (buf: array<Byte>, size: nat)
    requires v.Valid() && CopyFits(v.ram[..], v.f, FirstCluster(v.ram[..], e), SizeOf(v.ram[..], e))
    ensures fresh(buf) && size == SizeOf(v.ram[..], e) && buf.Length == size + 1 && buf[size] == 0
    ensures var s := Stored(v.ram[..], v.f, FirstCluster(v.ram[..], e), size);
      buf[..Min(|s|, size)] == s[..Min(|s|, size)]
  {
    var lo := v.Read16(e + 28);
    var hi := v.Read16(e + 30);
    size := lo + 0x1_0000 * hi;
    var c := v.Read16(e + 26);
    buf := new Byte[size + 1];
    ghost var m := v.ram[..];
    Gather(v, c, buf, size);
    assert v.ram[..] == m;
    buf[size] := 0;
    assert v.ram[..] == m;
  }

  datatype Opened = NotFound | File(data: array<Byte>, size: nat)

  /** Opens a file by path: the entry it resolves to, and that entry's contents. */
  method Open(v: Volume, path: seq<Byte>) returns (r: Opened)
    requires v.Valid() && PathAnswers(v.ram[..], v.f, path)
    requires var e := Resolve(v.ram[..], v.f, path);
      e.Some? ==> CopyFits(v.ram[..], v.f, FirstCluster(v.ram[..], e.value), SizeOf(v.ram[..], e.value))
    ensures r.NotFound? <==> Resolve(v.ram[..], v.f, path) == None
    ensures r.File? ==>
      var e := Resolve(v.ram[..], v.f, path).value;
      var s := Stored(v.ram[..], v.f, FirstCluster(v.ram[..], e), r.size);
      r.size == SizeOf(v.ram[..], e) && r.data.Length == r.size + 1 && r.data[r.size] == 0
      && r.data[..Min(|s|, r.size)] == s[..Min(|s|, r.size)]
  {
    var e := ResolvePath(v, path);
    if e == None {
      return NotFound;
    }
    var buf, size := Load(v, e.value);
    return File(buf, size);
  }

  method Copy(src: array<Byte>, p: nat, dst: array<Byte>, q: nat, n: nat)
    requires p + n <= src.Length && q + n <= dst.Length && src != dst
    modifies dst
    ensures dst[..q + n] == old(dst[..q]) + src[p..p + n]
  {
    var i := 0;
    while i < n
      invariant 0 <= i <= n && dst[..q + i] == old(dst[..q]) + src[p..p + i]
    {
      dst[q + i] := src[p + i];
      i := i + 1;
    }
  }
}
