/** Finding a file by path: 8.3 names, directory scans, cluster chains. */
module FatPath {
  import opened Options
  import opened Machine32
  import opened Bits
  import opened Fat16
  import opened Fat16Volume
  import opened FatChain
  import Fat16Theorems

  const SPACE_CHAR: Byte := 0x20
  const DOT: Byte := 0x2E
  const TILDE: Byte := 0x7E
  const SLASH: Byte := 0x2F

  function Upper(c: Byte): Byte { if 0x61 <= c <= 0x7A then c - 32 else c }

  function UpperAll(s: seq<Byte>): (r: seq<Byte>)
    ensures |r| == |s|
  {
    seq(|s|, i requires 0 <= i < |s| => Upper(s[i]))
  }

  // ---- 8.3 names ----

  /** The position of the last `c` in `s`, or -1. */
  function Last(s: seq<Byte>, c: Byte): (r: int)
    ensures -1 <= r < |s| && (r >= 0 ==> s[r] == c) && (forall k :: r < k < |s| ==> s[k] != c)
  {
    if s == [] then -1 else if s[|s| - 1] == c then |s| - 1 else Last(s[..|s| - 1], c)
  }

  function Base(comp: seq<Byte>): seq<Byte>
  {
    var d := Last(comp, DOT);
    if d >= 0 then comp[..d] else comp
  }

  function Ext(comp: seq<Byte>): seq<Byte>
  {
    var d := Last(comp, DOT);
    if d >= 0 then comp[d + 1..] else []
  }

  /** `s` upper-cased, cut or space-padded to `n` bytes. */
  function Field(s: seq<Byte>, n: nat): (r: seq<Byte>)
    ensures |r| == n
  {
    seq(n, i requires 0 <= i => if i < |s| then Upper(s[i]) else SPACE_CHAR)
  }

  function Short(comp: seq<Byte>): Name { Field(Base(comp), 8) + Field(Ext(comp), 3) }

  /** Does a directory entry's 11-byte field match a path component: exactly, or as the `~` short
      form of a base name longer than eight bytes? */
  predicate EntryMatches(e: Name, comp: seq<Byte>)
  {
    e == Short(comp)
    || (|Base(comp)| > 8 && e[..6] == Short(comp)[..6] && e[6] == TILDE && e[8..] == Short(comp)[8..])
  }

  method To83(comp: seq<Byte>) returns (name: array<Byte>, ext: array<Byte>, truncated: bool)
    ensures fresh(name) && fresh(ext) && name[..] == Field(Base(comp), 8) && ext[..] == Field(Ext(comp), 3)
    ensures truncated <==> |Base(comp)| > 8
  {
    var dot, p := -1, 0;
    while p < |comp|
      invariant 0 <= p <= |comp| && dot == Last(comp[..p], DOT)
    {
      assert comp[..p + 1][..p] == comp[..p];
      if comp[p] == DOT {
        dot := p;
      }
      p := p + 1;
    }
    assert comp[..p] == comp;
    name, ext, truncated := FillParts(comp, dot);
  }

  method FillParts(comp: seq<Byte>, dot: int) returns (name: array<Byte>, ext: array<Byte>, truncated: bool)
    requires dot == Last(comp, DOT)
    ensures fresh(name) && fresh(ext) && name[..] == Field(Base(comp), 8) && ext[..] == Field(Ext(comp), 3)
    ensures truncated <==> |Base(comp)| > 8
  {
    name := FillField(if dot >= 0 then comp[..dot] else comp, 8);
    ext := FillField(if dot >= 0 then comp[dot + 1..] else [], 3);
    truncated := (if dot >= 0 then dot else |comp|) > 8;
  }

  method FillField(s: seq<Byte>, n: nat) returns (a: array<Byte>)
    ensures fresh(a) && a[..] == Field(s, n)
  {
    a := new Byte[n](_ => SPACE_CHAR);
    var i := 0;
    while i < |s| && i < n
      invariant 0 <= i <= |s| && i <= n
      invariant forall k :: 0 <= k < n ==> a[k] == if k < i then Upper(s[k]) else SPACE_CHAR
    {
      a[i] := Upper(s[i]);
      i := i + 1;
    }
  }

  // ---- what an 8.3 match means ----

  /** A short name: 1 to 8 base bytes and at most 3 extension bytes, without dots or spaces. */
  predicate Plain(s: seq<Byte>) { forall k :: 0 <= k < |s| ==> s[k] != DOT && s[k] != SPACE_CHAR }

  predicate IsShort(base: seq<Byte>, ext: seq<Byte>)
  {
    1 <= |base| <= 8 && |ext| <= 3 && Plain(base) && Plain(ext)
  }

  /** The two parts as one component: without an extension there is no dot either. */
  function FileName(base: seq<Byte>, ext: seq<Byte>): seq<Byte>
  {
    if ext == [] then base else base + [DOT] + ext
  }

  lemma Splits(base: seq<Byte>, ext: seq<Byte>)
    requires Plain(base) && Plain(ext)
    ensures Base(FileName(base, ext)) == base && Ext(FileName(base, ext)) == ext
  {
    if ext != [] {
      SplitsAtDot(base, ext);
    } else {
      assert Last(base, DOT) == -1;
    }
  }

  lemma SplitsAtDot(base: seq<Byte>, ext: seq<Byte>)
    requires Plain(ext)
    ensures Base(base + [DOT] + ext) == base && Ext(base + [DOT] + ext) == ext
  {
    var comp := base + [DOT] + ext;
    assert comp[|base|] == DOT;
    forall k | |base| < k < |comp| ensures comp[k] != DOT {
      assert comp[k] == ext[k - |base| - 1];
    }
    assert Last(comp, DOT) == |base|;
  }

  lemma FieldPadding(s: seq<Byte>, n: nat)
    requires Plain(s)
    ensures forall k :: 0 <= k < n ==> (Field(s, n)[k] == SPACE_CHAR <==> k >= |s|)
  {
  }

  /** Padding loses nothing of a field that fits. */
  lemma FieldIsInjective(s: seq<Byte>, t: seq<Byte>, n: nat)
    requires |s| <= n && |t| <= n && Plain(s) && Plain(t)
    ensures Field(s, n) == Field(t, n) <==> UpperAll(s) == UpperAll(t)
  {
    if UpperAll(s) == UpperAll(t) {
      assert |UpperAll(s)| == |UpperAll(t)|;
      forall k | 0 <= k < n ensures Field(s, n)[k] == Field(t, n)[k] {
        assert k < |s| ==> UpperAll(s)[k] == UpperAll(t)[k];
      }
    }
    if Field(s, n) == Field(t, n) {
      FieldPadding(s, n);
      FieldPadding(t, n);
      var k := if |s| < |t| then |s| else |t|;
      assert k < n ==> Field(s, n)[k] == Field(t, n)[k];
      assert |s| == |t|;
      forall k | 0 <= k < |s| ensures UpperAll(s)[k] == UpperAll(t)[k] {
        assert Field(s, n)[k] == Field(t, n)[k];
      }
    }
  }

  /** The entry of one short name matches another exactly when they agree but for case. */
  lemma MatchIgnoresCase(base: seq<Byte>, ext: seq<Byte>, base': seq<Byte>, ext': seq<Byte>)
    requires IsShort(base, ext) && IsShort(base', ext')
    ensures EntryMatches(Short(FileName(base, ext)), FileName(base', ext'))
      <==> UpperAll(base) == UpperAll(base') && UpperAll(ext) == UpperAll(ext')
  {
    Splits(base, ext);
    Splits(base', ext');
    FieldIsInjective(base, base', 8);
    FieldIsInjective(ext, ext', 3);
    var e, e' := Short(FileName(base, ext)), Short(FileName(base', ext'));
    assert e[..8] == Field(base, 8) && e[8..] == Field(ext, 3);
    assert e'[..8] == Field(base', 8) && e'[8..] == Field(ext', 3);
    assert e == e[..8] + e[8..] && e' == e'[..8] + e'[8..];
  }

  // ---- directory scans ----

  /** A slot that the scan may return: in use, no volume label, and (below the root) not `.` or `..`. */
  predicate Live(m: Ram, e: nat, dots: bool)
    requires e + 32 <= SPACE
  {
    m[e] != 0x00 && m[e] != 0xE5 && And(m[e + 11], 0x08) == 0 && (dots ==> m[e] != DOT)
  }

  predicate Hit(m: Ram, e: nat, dots: bool, comp: seq<Byte>)
    requires e + 32 <= SPACE
  {
    Live(m, e, dots) && EntryMatches(m[e..e + 11], comp)
  }

  type Address = e: nat | e + 32 <= SPACE

  /** The scan of a directory's slots, in order. */
  function Scan(m: Ram, es: seq<Address>, dots: bool, comp: seq<Byte>): Option<Address>
  {
    if es == [] || m[es[0]] == 0x00 then None
    else if Hit(m, es[0], dots, comp) then Some(es[0])
    else Scan(m, es[1..], dots, comp)
  }

  /** Slot `k` is the first match, and no end marker comes before it. */
  ghost predicate FirstHit(m: Ram, es: seq<Address>, dots: bool, comp: seq<Byte>, k: nat)
  {
    k < |es| && Hit(m, es[k], dots, comp)
    && forall j :: 0 <= j < k ==> m[es[j]] != 0x00 && !Hit(m, es[j], dots, comp)
  }

  lemma {:induction false} ScanFindsFirst(m: Ram, es: seq<Address>, dots: bool, comp: seq<Byte>)
    ensures var r := Scan(m, es, dots, comp);
      (r.Some? <==> exists k: nat :: FirstHit(m, es, dots, comp, k))
      && (forall k: nat :: FirstHit(m, es, dots, comp, k) ==> r == Some(es[k]))
  {
    if es == [] || m[es[0]] == 0x00 {
      forall k: nat ensures !FirstHit(m, es, dots, comp, k) {
        assert k < |es| && k > 0 ==> m[es[0]] == 0x00;
      }
    } else if Hit(m, es[0], dots, comp) {
      assert FirstHit(m, es, dots, comp, 0);
      assert forall k: nat :: FirstHit(m, es, dots, comp, k) ==> k == 0;
    } else {
      var rest := es[1..];
      ScanFindsFirst(m, rest, dots, comp);
      forall k: nat | FirstHit(m, es, dots, comp, k) ensures k > 0 && FirstHit(m, rest, dots, comp, k - 1) {
        forall j | 0 <= j < k - 1 ensures m[rest[j]] != 0x00 && !Hit(m, rest[j], dots, comp) {
          assert rest[j] == es[j + 1];
        }
      }
      forall k: nat | FirstHit(m, rest, dots, comp, k) ensures FirstHit(m, es, dots, comp, k + 1) {
        forall j | 0 <= j < k + 1 ensures m[es[j]] != 0x00 && !Hit(m, es[j], dots, comp) {
          assert j > 0 ==> es[j] == rest[j - 1];
        }
      }
    }
  }

  lemma {:induction false} ScanAppend(m: Ram, es: seq<Address>, fs: seq<Address>, dots: bool, comp: seq<Byte>)
    requires forall k :: 0 <= k < |es| ==> m[es[k]] != 0x00 && !Hit(m, es[k], dots, comp)
    ensures Scan(m, es + fs, dots, comp) == Scan(m, fs, dots, comp)
  {
    if es == [] {
      assert es + fs == fs;
    } else {
      assert (es + fs)[1..] == es[1..] + fs;
      ScanAppend(m, es[1..], fs, dots, comp);
    }
  }

  /** The scan from slot `i` on. */
  lemma ScanFrom(m: Ram, es: seq<Address>, i: nat, dots: bool, comp: seq<Byte>)
    requires i < |es|
    ensures Scan(m, es[i..], dots, comp)
      == if m[es[i]] == 0x00 then None
         else if Hit(m, es[i], dots, comp) then Some(es[i])
         else Scan(m, es[i + 1..], dots, comp)
  {
    assert es[i..][0] == es[i] && es[i..][1..] == es[i + 1..];
  }

  // ---- the root directory and chained directories ----

  function RootSlots(f: Layout): (es: seq<Address>)
    requires f.Valid()
  {
    seq(f.rdcnt, i requires 0 <= i < f.rdcnt => Slot(f, i))
  }

  function SlotsPerCluster(f: Layout): nat
    requires f.Valid()
  {
    ClusterBytes(f) / 32
  }

  function ClusterSlots(f: Layout, c: nat): (es: seq<Address>)
    requires f.Valid()
  {
    assert forall i :: 0 <= i < SlotsPerCluster(f) ==> Cluster(f, c) + 32 * i + 32 <= SPACE;
    seq(SlotsPerCluster(f), i requires 0 <= i < SlotsPerCluster(f) => Cluster(f, c) + 32 * i)
  }

  function DirSlots(f: Layout, cs: seq<nat>): (es: seq<Address>)
    requires f.Valid()
  {
    if cs == [] then [] else ClusterSlots(f, cs[0]) + DirSlots(f, cs[1..])
  }

  // ---- the scans, over the memory in place ----

  method Matches(ram: array<Byte>, e: nat, comp: seq<Byte>) returns (hit: bool)
    requires e + 11 <= ram.Length
    ensures hit <==> EntryMatches(ram[e..e + 11], comp)
  {
    var name, ext, truncated := To83(comp);
    ghost var field := ram[e..e + 11];
    assert field == ram[e..e + 8] + ram[e + 8..e + 11];
    assert Short(comp)[..8] == name[..] && Short(comp)[8..] == ext[..];
    assert Short(comp) == name[..] + ext[..];
    assert field[..8] == ram[e..e + 8] && field[8..] == ram[e + 8..e + 11];
    assert field[..6] == ram[e..e + 6] && Short(comp)[..6] == name[..6];
    var base := FieldIs(ram, e, name[..]);
    var tail := FieldIs(ram, e + 8, ext[..]);
    if base && tail {
      return true;
    }
    assert field != Short(comp);
    if truncated {
      var stem := FieldIs(ram, e, name[..6]);
      return stem && ram[e + 6] == TILDE && tail;
    }
    return false;
  }

  method FindInRoot(v: Volume, comp: seq<Byte>) returns (r: Option<Address>)
    requires v.Valid()
    ensures r == Scan(v.ram[..], RootSlots(v.f), false, comp)
  {
    ghost var m, es := v.ram[..], RootSlots(v.f);
    var i := 0;
    while i < v.f.rdcnt
      invariant 0 <= i <= v.f.rdcnt
      invariant Scan(m, es, false, comp) == Scan(m, es[i..], false, comp)
    {
      var e := Slot(v.f, i);
      assert es[i] == e;
      ScanFrom(m, es, i, false, comp);
      if v.ram[e] == 0x00 {
        break;
      }
      if v.ram[e] != 0xE5 && And(v.ram[e + 11], 0x08) == 0 {
        var hit := Matches(v.ram, e, comp);
        assert v.ram[e..e + 11] == m[e..e + 11];
        if hit {
          return Some(e);
        }
      }
      i := i + 1;
    }
    return None;
  }

  // ---- when the search of a chained directory ends ----

  /** The scan stops at slot `e`: at the end marker or at a match. */
  predicate StopsAt(m: Ram, e: Address, dots: bool, comp: seq<Byte>)
  {
    m[e] == 0x00 || Hit(m, e, dots, comp)
  }

  predicate Stops(m: Ram, es: seq<Address>, dots: bool, comp: seq<Byte>)
  {
    exists k :: 0 <= k < |es| && StopsAt(m, es[k], dots, comp)
  }

  lemma StopsInPart(m: Ram, es: seq<Address>, fs: seq<Address>, dots: bool, comp: seq<Byte>)
    ensures Stops(m, es + fs, dots, comp) <==> Stops(m, es, dots, comp) || Stops(m, fs, dots, comp)
  {
    if Stops(m, es, dots, comp) {
      var k :| 0 <= k < |es| && StopsAt(m, es[k], dots, comp);
      assert (es + fs)[k] == es[k];
    }
    if Stops(m, fs, dots, comp) {
      var k :| 0 <= k < |fs| && StopsAt(m, fs[k], dots, comp);
      assert (es + fs)[|es| + k] == fs[k];
    }
    if Stops(m, es + fs, dots, comp) {
      var k :| 0 <= k < |es + fs| && StopsAt(m, (es + fs)[k], dots, comp);
      assert (es + fs)[k] == if k < |es| then es[k] else fs[k - |es|];
    }
  }

  lemma {:induction false} StopsInCluster(m: Ram, f: Layout, cs: seq<nat>, comp: seq<Byte>)
    requires f.Valid()
    ensures Stops(m, DirSlots(f, cs), true, comp)
      <==> exists k :: 0 <= k < |cs| && StopsIn(m, f, cs[k], comp)
  {
    if cs != [] {
      StopsInPart(m, ClusterSlots(f, cs[0]), DirSlots(f, cs[1..]), true, comp);
      StopsInCluster(m, f, cs[1..], comp);
      assert forall k :: 0 < k < |cs| ==> cs[k] == cs[1..][k - 1];
      assert forall k :: 0 <= k < |cs[1..]| ==> cs[1..][k] == cs[k + 1];
    }
  }

  predicate StopsIn(m: Ram, f: Layout, c: nat, comp: seq<Byte>)
    requires f.Valid()
  {
    Stops(m, ClusterSlots(f, c), true, comp)
  }

  /** The cluster at which the search is after `i` clusters, None once it has returned. */
  function Search(m: Ram, f: Layout, start: nat, comp: seq<Byte>, i: nat): (r: Option<nat>)
    requires f.Valid() && start < 0x1_0000
    ensures r.Some? ==> r.value < 0x1_0000
    decreases i
  {
    if i == 0 then Some(start)
    else
      var r := Search(m, f, start, comp, i - 1);
      if r == None || !InUse(r.value) || StopsIn(m, f, r.value, comp) then None
      else Some(Fat(m, f, r.value))
  }

  ghost predicate SearchEnds(m: Ram, f: Layout, start: nat, comp: seq<Byte>)
    requires f.Valid() && start < 0x1_0000
  {
    exists i: nat :: Search(m, f, start, comp, i) == None
  }

  /** The walk along the directory ends, or one of its slots ends the scan. */
  ghost predicate Answers(m: Ram, f: Layout, start: nat, comp: seq<Byte>)
    requires f.Valid() && start < 0x1_0000
  {
    WalkEnds(m, f, start) || Stops(m, DirSlots(f, Follow(m, f, start, CLUSTER_END)), true, comp)
  }

  predicate PassedAt(m: Ram, f: Layout, start: nat, comp: seq<Byte>, j: nat)
    requires f.Valid() && start < 0x1_0000
  {
    InUseAt(m, f, start, j) && !StopsIn(m, f, Nth(m, f, start, j), comp)
  }

  ghost predicate AllPassed(m: Ram, f: Layout, start: nat, comp: seq<Byte>, i: nat)
    requires f.Valid() && start < 0x1_0000
  {
    forall j :: 0 <= j < i ==> PassedAt(m, f, start, comp, j)
  }

  lemma OneMorePassed(m: Ram, f: Layout, start: nat, comp: seq<Byte>, i: nat)
    requires f.Valid() && start < 0x1_0000
    ensures AllPassed(m, f, start, comp, i + 1) <==> AllPassed(m, f, start, comp, i) && PassedAt(m, f, start, comp, i)
  {
  }

  lemma {:induction false} SearchIs(m: Ram, f: Layout, start: nat, comp: seq<Byte>, i: nat)
    requires f.Valid() && start < 0x1_0000
    ensures var r := Search(m, f, start, comp, i);
      (r.Some? <==> AllPassed(m, f, start, comp, i))
      && (r.Some? ==> r == Some(Nth(m, f, start, i)))
    decreases i
  {
    if i > 0 {
      SearchIs(m, f, start, comp, i - 1);
      OneMorePassed(m, f, start, comp, i - 1);
    }
  }

  /** The search of a chained directory ends exactly then: a chain in a circle is no harm by itself. */
  lemma SearchEndsWhen(m: Ram, f: Layout, start: nat, comp: seq<Byte>)
    requires f.Valid() && start < 0x1_0000
    ensures SearchEnds(m, f, start, comp) <==> Answers(m, f, start, comp)
  {
    var cs := Follow(m, f, start, CLUSTER_END);
    StopsInCluster(m, f, cs, comp);
    if Answers(m, f, start, comp) {
      AnswersInTime(m, f, start, comp);
    }
    if SearchEnds(m, f, start, comp) && !WalkEnds(m, f, start) {
      var i: nat :| Search(m, f, start, comp, i) == None;
      SearchIs(m, f, start, comp, i);
      var j :| 0 <= j < i && !PassedAt(m, f, start, comp, j);
      EndsAtNoCluster(m, f, start);
      assert InUseAt(m, f, start, j);
      var k := NothingNew(m, f, start, j);
      VisitedInTime(m, f, start, k);
      assert StopsIn(m, f, cs[k], comp);
    }
  }

  lemma VisitedInTime(m: Ram, f: Layout, start: nat, k: nat)
    requires start < 0x1_0000 && !WalkEnds(m, f, start) && k < CLUSTER_END
    ensures |Follow(m, f, start, CLUSTER_END)| == CLUSTER_END
      && Follow(m, f, start, CLUSTER_END)[k] == Nth(m, f, start, k)
  {
    EndsAtNoCluster(m, f, start);
    FollowLasts(m, f, start, CLUSTER_END);
    FollowNth(m, f, start, CLUSTER_END, k);
  }

  lemma AnswersInTime(m: Ram, f: Layout, start: nat, comp: seq<Byte>)
    requires f.Valid() && start < 0x1_0000 && Answers(m, f, start, comp)
    ensures Search(m, f, start, comp, CLUSTER_END) == None
  {
    if WalkEnds(m, f, start) {
      var ds :| Leads(m, f, start, ds);
      TheWalk(m, f, start, ds);
    }
    AnswersWithin(m, f, start, comp, CLUSTER_END);
  }

  lemma AnswersWithin(m: Ram, f: Layout, start: nat, comp: seq<Byte>, n: nat)
    requires f.Valid() && start < 0x1_0000
    requires |Follow(m, f, start, n)| < n || Stops(m, DirSlots(f, Follow(m, f, start, n)), true, comp)
    ensures Search(m, f, start, comp, n) == None
  {
    var cs := Follow(m, f, start, n);
    SearchIs(m, f, start, comp, n);
    if |cs| < n {
      FollowLasts(m, f, start, n);
      var j :| 0 <= j < n && !InUseAt(m, f, start, j);
      assert !PassedAt(m, f, start, comp, j);
    } else {
      StopsInCluster(m, f, cs, comp);
      var k :| 0 <= k < |cs| && StopsIn(m, f, cs[k], comp);
      FollowNth(m, f, start, n, k);
      assert !PassedAt(m, f, start, comp, k);
    }
  }

  /** A directory of one cluster, its own successor, whose entries are all deleted. */
  function DeadCircle(): Ram
  {
    Fat16Theorems.Image(1, (k: nat) => if k == 516 then 2 else if 1536 <= k < 2048 then 0xE5 else 0)
  }

  lemma {:induction false} RoundAgain(comp: seq<Byte>, i: nat)
    ensures Search(DeadCircle(), Fat16Theorems.TINY, 2, comp, i) == Some(2)
    decreases i
  {
    var m, f := DeadCircle(), Fat16Theorems.TINY;
    if i > 0 {
      RoundAgain(comp, i - 1);
      assert Fat(m, f, 2) == 2 && Cluster(f, 2) == 1536;
      assert forall k :: 0 <= k < |ClusterSlots(f, 2)| ==> !StopsAt(m, ClusterSlots(f, 2)[k], true, comp);
    }
  }

  /** There no search ends. */
  lemma SearchesForEver(comp: seq<Byte>)
    ensures Mounted(DeadCircle()) == Fat16Theorems.TINY
    ensures !SearchEnds(DeadCircle(), Fat16Theorems.TINY, 2, comp)
  {
    Fat16Theorems.ImageMounts(DeadCircle(), 1);
    forall i: nat ensures Search(DeadCircle(), Fat16Theorems.TINY, 2, comp, i) != None {
      RoundAgain(comp, i);
    }
  }

  /** One cluster of a directory: a match, the end of the directory, or neither. */
  datatype Found = Match(e: Address) | End | GoOn

  /** The first `n` slots do not end the scan. */
  ghost predicate Passed(m: Ram, es: seq<Address>, n: nat, dots: bool, comp: seq<Byte>)
    requires n <= |es|
  {
    forall k :: 0 <= k < n ==> !StopsAt(m, es[k], dots, comp)
  }

  lemma ScanStops(m: Ram, es: seq<Address>, i: nat, rest: seq<Address>, dots: bool, comp: seq<Byte>)
    requires i < |es| && Passed(m, es, i, dots, comp) && StopsAt(m, es[i], dots, comp)
    ensures Scan(m, es + rest, dots, comp) == if m[es[i]] == 0x00 then None else Some(es[i])
    ensures Stops(m, es, dots, comp)
  {
    var tail := es[i..] + rest;
    assert es + rest == es[..i] + tail && tail[0] == es[i];
    ScanAppend(m, es[..i], tail, dots, comp);
  }

  lemma ScanPasses(m: Ram, es: seq<Address>, rest: seq<Address>, dots: bool, comp: seq<Byte>)
    requires Passed(m, es, |es|, dots, comp)
    ensures Scan(m, es + rest, dots, comp) == Scan(m, rest, dots, comp) && !Stops(m, es, dots, comp)
  {
    ScanAppend(m, es, rest, dots, comp);
  }

  method HitAt(v: Volume, e: nat, comp: seq<Byte>) returns (hit: bool)
    requires v.Valid() && e + 32 <= SPACE && v.ram[e] != 0x00
    ensures hit <==> Hit(v.ram[..], e, true, comp)
  {
    hit := false;
    if v.ram[e] != 0xE5 && And(v.ram[e + 11], 0x08) == 0 && v.ram[e] != DOT {
      hit := Matches(v.ram, e, comp);
      assert v.ram[e..e + 11] == v.ram[..][e..e + 11];
    }
  }

  method FindInCluster(v: Volume, c: nat, comp: seq<Byte>, ghost rest: seq<Address>) returns (r: Found)
    requires v.Valid()
    ensures Scan(v.ram[..], ClusterSlots(v.f, c) + rest, true, comp)
      == match r { case Match(e) => Some(e) case End => None case GoOn => Scan(v.ram[..], rest, true, comp) }
    ensures r.GoOn? <==> !StopsIn(v.ram[..], v.f, c, comp)
  {
    ghost var m, es := v.ram[..], ClusterSlots(v.f, c);
    var i, n := 0, SlotsPerCluster(v.f);
    while i < n
      invariant 0 <= i <= n && Passed(m, es, i, true, comp)
    {
      var e := Cluster(v.f, c) + 32 * i;
      assert es[i] == e;
      if v.ram[e] == 0x00 {
        ScanStops(m, es, i, rest, true, comp);
        return End;
      }
      var hit := HitAt(v, e, comp);
      if hit {
        ScanStops(m, es, i, rest, true, comp);
        return Match(e);
      }
      i := i + 1;
    }
    ScanPasses(m, es, rest, true, comp);
    return GoOn;
  }

  /** Walks the directory's clusters until one ends the scan or the chain ends. */
  method FindInDir(v: Volume, start: nat, comp: seq<Byte>) returns (r: Option<Address>)
    requires v.Valid() && start < 0x1_0000 && Answers(v.ram[..], v.f, start, comp)
    ensures r == Scan(v.ram[..], DirSlots(v.f, Follow(v.ram[..], v.f, start, CLUSTER_END)), true, comp)
  {
    ghost var m := v.ram[..];
    ghost var all := Scan(m, DirSlots(v.f, Follow(m, v.f, start, CLUSTER_END)), true, comp);
    var c := start;
    ghost var i := 0;
    AnswersInTime(m, v.f, start, comp);
    while InUse(c)
      invariant c < 0x1_0000 && i <= CLUSTER_END && Search(m, v.f, start, comp, i) == Some(c)
      invariant all == Scan(m, DirSlots(v.f, Follow(m, v.f, c, CLUSTER_END - i)), true, comp)
      decreases CLUSTER_END - i
    {
      ghost var next := Fat(m, v.f, c);
      ghost var rest := Follow(m, v.f, next, CLUSTER_END - i - 1);
      assert Follow(m, v.f, c, CLUSTER_END - i) == [c] + rest && ([c] + rest)[1..] == rest;
      var found := FindInCluster(v, c, comp, DirSlots(v.f, rest));
      if found.Match? {
        return Some(found.e);
      } else if found.End? {
        return None;
      }
      c := v.Read16(Fat1(v.f) + 2 * c);
      i := i + 1;
    }
    return None;
  }
}
