/** The loop that copies a cluster chain, with its sums taken in 32 bits: when it ends, and when it copies
    what it should. */
module FatCopy {
  import opened Machine32
  import opened Bits
  import opened Fat16
  import opened Fat16Theorems
  import opened FatChain

  /** How much of a cluster is copied. */
  function ToCopy(copied: nat, n: nat, size: nat): int
  {
    if U32(copied + n) > size then size - copied else n
  }

  /** It is the lesser of a cluster and what is missing exactly while the sum does not wrap. */
  lemma CopyIsExact(copied: nat, n: nat, size: nat)
    requires copied < size < TWO32 && n < 0x100_0000
    ensures ToCopy(copied, n, size) == Min(n, size - copied) <==> copied + n < TWO32
    ensures ToCopy(copied, n, size) <= size - copied <==> copied + n < TWO32
  {
  }

  // ---- the loop, one copy after another ----

  /** The loop's variables. */
  datatype State = State(c: nat, copied: nat)
  {
    predicate Running(size: nat) { InUse(c) && copied < size }
  }

  /** The variables after `i` passes, unchanged once the loop has ended. */
  function After(m: Ram, f: Layout, c: nat, size: nat, i: nat): (s: State)
    requires f.Valid() && c < 0x1_0000
    ensures s.c < 0x1_0000
    decreases i
  {
    if i == 0 then State(c, 0)
    else
      var s := After(m, f, c, size, i - 1);
      if s.Running(size) then State(Fat(m, f, s.c), U32(s.copied + ToCopy(s.copied, ClusterBytes(f), size))) else s
  }

  ghost predicate LoopEnds(m: Ram, f: Layout, c: nat, size: nat)
    requires f.Valid() && c < 0x1_0000
  {
    exists i: nat :: !After(m, f, c, size, i).Running(size)
  }

  /** Pass `i`, if there is one, copies to offset i * n as much as it should. */
  ghost predicate RightAt(m: Ram, f: Layout, c: nat, size: nat, i: nat)
    requires f.Valid() && c < 0x1_0000
  {
    var s, n := After(m, f, c, size, i), ClusterBytes(f);
    s.Running(size) ==> s.copied == i * n && ToCopy(s.copied, n, size) == Min(n, size - s.copied)
  }

  /** Pass `i`, if there is one, does not copy past the end of the file's bytes. */
  ghost predicate InsideAt(m: Ram, f: Layout, c: nat, size: nat, i: nat)
    requires f.Valid() && c < 0x1_0000
  {
    var s := After(m, f, c, size, i);
    s.Running(size) ==> s.copied + ToCopy(s.copied, ClusterBytes(f), size) <= size
  }

  ghost predicate AllRight(m: Ram, f: Layout, c: nat, size: nat)
    requires f.Valid() && c < 0x1_0000
  {
    forall i: nat :: RightAt(m, f, c, size, i)
  }

  ghost predicate AllInside(m: Ram, f: Layout, c: nat, size: nat)
    requires f.Valid() && c < 0x1_0000
  {
    forall i: nat :: InsideAt(m, f, c, size, i)
  }

  // ---- offsets are multiples of the cluster size, modulo 2^32 ----

  predicate Short(n: nat, size: nat, i: nat) { U32(i * n) < size }

  ghost predicate AllShort(n: nat, size: nat, i: nat)
  {
    forall j :: 0 <= j < i ==> Short(n, size, j)
  }

  /** Pass `i` takes place exactly when the walk has that many clusters and no offset up to this one has
      reached the size. */
  lemma {:induction false} RunsWhile(m: Ram, f: Layout, c: nat, size: nat, i: nat)
    requires f.Valid() && c < 0x1_0000 && size < TWO32
    ensures var s, n := After(m, f, c, size, i), ClusterBytes(f);
      (s.Running(size) <==> LastsFor(m, f, c, i + 1) && AllShort(n, size, i + 1))
      && (LastsFor(m, f, c, i) && AllShort(n, size, i) ==> s == State(Nth(m, f, c, i), Min(U32(i * n), size)))
    decreases i
  {
    var n := ClusterBytes(f);
    assert 0 * n == 0;
    if i > 0 {
      RunsWhile(m, f, c, size, i - 1);
      if Short(n, size, i - 1) {
        NextOffset(n, size, i);
      }
    }
    LastsMore(m, f, c, i);
    assert AllShort(n, size, i + 1) <==> AllShort(n, size, i) && Short(n, size, i);
  }

  lemma LastsMore(m: Ram, f: Layout, c: nat, i: nat)
    requires c < 0x1_0000
    ensures LastsFor(m, f, c, i + 1) <==> LastsFor(m, f, c, i) && InUseAt(m, f, c, i)
  {
  }

  lemma NextMultiple(n: nat, i: nat)
    requires i > 0
    ensures U32(i * n) == U32(U32((i - 1) * n) + n)
  {
    assert i * n == (i - 1) * n + n;
    WrapSum((i - 1) * n, n);
  }

  lemma WrapSum(x: nat, y: nat)
    ensures U32(x + y) == U32(U32(x) + y)
  {
  }

  lemma NextSum(o: nat, n: nat, size: nat, next: nat)
    requires o < size < TWO32 && next == U32(o + n)
    ensures U32(o + ToCopy(o, n, size)) == Min(next, size)
  {
  }

  lemma NextOffset(n: nat, size: nat, i: nat)
    requires i > 0 && Short(n, size, i - 1) && size < TWO32
    ensures var o := Min(U32((i - 1) * n), size); U32(o + ToCopy(o, n, size)) == Min(U32(i * n), size)
  {
    NextMultiple(n, i);
    NextSum(U32((i - 1) * n), n, size, U32(i * n));
  }

  // ---- when the loop ends ----

  /** Some multiple of the cluster size, modulo 2^32, reaches the end of the file. */
  ghost predicate Reaches(n: nat, size: nat)
  {
    exists i: nat :: !Short(n, size, i)
  }

  lemma EndsOrReaches(m: Ram, f: Layout, c: nat, size: nat)
    requires f.Valid() && c < 0x1_0000 && size < TWO32
    ensures LoopEnds(m, f, c, size) <==> WalkEnds(m, f, c) || Reaches(ClusterBytes(f), size)
  {
    var n := ClusterBytes(f);
    EndsAtNoCluster(m, f, c);
    if i: nat :| !After(m, f, c, size, i).Running(size) {
      RunsWhile(m, f, c, size, i);
    }
    if i: nat :| !InUseAt(m, f, c, i) {
      RunsWhile(m, f, c, size, i);
    }
    if i: nat :| !Short(n, size, i) {
      RunsWhile(m, f, c, size, i);
    }
  }

  /** The largest power of two that divides `n`. */
  function Twos(n: nat): (k: nat)
    requires n > 0
  {
    if n % 2 == 1 then 0 else 1 + Twos(n / 2)
  }

  lemma {:induction false} OddPart(n: nat) returns (o: nat)
    requires n > 0
    ensures o % 2 == 1 && n == o * Pow2(Twos(n))
  {
    if n % 2 == 1 {
      o := n;
    } else {
      o := OddPart(n / 2);
      var p := Pow2(Twos(n / 2));
      assert o * (2 * p) == 2 * (o * p);
    }
  }

  /** An odd number has multiples just below a multiple of any power of two. */
  lemma {:induction false} JustBelow(o: nat, k: nat) returns (i: nat, q: nat)
    requires o % 2 == 1
    ensures i * o + 1 == q * Pow2(k)
    decreases k
  {
    if k == 0 {
      i, q := 0, 1;
    } else {
      var p := Pow2(k - 1);
      i, q := JustBelow(o, k - 1);
      if q % 2 == 1 {
        AddOddPart(i, o, q, p);
        i, q := i + p, q + o;
      }
      HalfTwice(q, p);
      q := q / 2;
    }
  }

  lemma AddOddPart(i: nat, o: nat, q: nat, p: nat)
    requires i * o + 1 == q * p && o % 2 == 1 && q % 2 == 1
    ensures (i + p) * o + 1 == (q + o) * p && (q + o) % 2 == 0
  {
    assert (i + p) * o == i * o + p * o;
    assert (q + o) * p == q * p + o * p;
  }

  lemma HalfTwice(q: nat, p: nat)
    requires q % 2 == 0
    ensures q * p == (q / 2) * (2 * p)
  {
    var h := q / 2;
    assert q == 2 * h;
    assert (2 * h) * p == h * (2 * p);
  }

  lemma WholeWord()
    ensures Pow2(32) == TWO32
  {
    assert Pow2(8) == 256;
    PowSplit(8, 8);
    PowSplit(16, 16);
  }

  lemma WordPower(k: nat)
    requires Pow2(k) < TWO32
    ensures k < 32 && Pow2(k) * Pow2(32 - k) == TWO32
  {
    WholeWord();
    if k >= 32 {
      PowSplit(32, k - 32);
      AtLeast(TWO32, Pow2(k - 32));
    }
    PowSplit(k, 32 - k);
  }

  lemma MultipleBelow(x: nat, g: nat, h: nat)
    requires g * h == TWO32
    ensures U32(x * g) <= TWO32 - g
  {
    assert h > 0 && g > 0;
    var d, r := x / h, x % h;
    assert x == d * h + r;
    assert x * g == d * (h * g) + r * g;
    assert r * g <= (h - 1) * g;
    DivModUnique(x * g, TWO32, d, r * g);
  }

  lemma TopMultiple(x: nat, q: nat, g: nat, h: nat)
    requires g * h == TWO32 && x + 1 == q * h
    ensures U32(x * g) == TWO32 - g
  {
    assert h > 0 && g > 0 && q > 0;
    assert (x + 1) * g == q * (h * g);
    assert g <= g * h;
    DivModUnique(x * g, TWO32, q - 1, TWO32 - g);
  }

  /** The highest multiple of `n`, modulo 2^32, is one power of two below 2^32. */
  lemma HighestMultiple(n: nat, size: nat)
    requires 0 < n < TWO32
    ensures Reaches(n, size) <==> size + Pow2(Twos(n)) <= TWO32
  {
    var k := Twos(n);
    var o := OddPart(n);
    AtLeast(Pow2(k), o);
    WordPower(k);
    var i, q := JustBelow(o, 32 - k);
    HighestIs(n, size, o, Pow2(k), Pow2(32 - k), i, q);
  }

  lemma AtLeast(g: nat, o: nat)
    requires o > 0
    ensures g <= o * g
  {
  }

  lemma HighestIs(n: nat, size: nat, o: nat, g: nat, h: nat, top: nat, q: nat)
    requires n == o * g && g * h == TWO32 && top * o + 1 == q * h
    ensures Reaches(n, size) <==> size + g <= TWO32
  {
    if i: nat :| !Short(n, size, i) {
      Regroup(i, o, g);
      MultipleBelow(i * o, g, h);
    }
    if size + g <= TWO32 {
      Regroup(top, o, g);
      TopMultiple(top * o, q, g, h);
      assert !Short(n, size, top);
    }
  }

  lemma Regroup(i: nat, o: nat, g: nat)
    ensures i * (o * g) == (i * o) * g
  {
  }

  lemma NoBytesReach(size: nat)
    ensures Reaches(0, size) <==> size == 0
  {
    assert forall i: nat :: i * 0 == 0;
    if size == 0 {
      assert !Short(0, size, 0);
    }
  }

  /** When the loop ends, for every volume and every size. */
  lemma EndsWhen(m: Ram, f: Layout, c: nat, size: nat)
    requires f.Valid() && c < 0x1_0000 && size < TWO32
    ensures var n := ClusterBytes(f);
      LoopEnds(m, f, c, size) <==>
        WalkEnds(m, f, c) || (if n == 0 then size == 0 else size + Pow2(Twos(n)) <= TWO32)
  {
    EndsOrReaches(m, f, c, size);
    if ClusterBytes(f) == 0 {
      NoBytesReach(size);
    } else {
      HighestMultiple(ClusterBytes(f), size);
    }
  }

  // ---- when the copies are right ----

  /** The last pass needed: the file's last byte is in cluster (size - 1) / n of the chain. */
  function LastPass(n: nat, size: nat): (t: nat)
    requires n > 0 && size > 0
    ensures t * n < size <= (t + 1) * n
  {
    var t := (size - 1) / n;
    LastPassIs(n, size - 1, t);
    t
  }

  lemma LastPassIs(n: nat, x: nat, t: nat)
    requires n > 0 && t == x / n
    ensures t * n <= x < (t + 1) * n
  {
    assert x == (x / n) * n + x % n;
  }

  /** The copies fit 32 bits: the last one needed does not pass 2^32, or the chain is too short for it. */
  predicate SumsFit(m: Ram, f: Layout, c: nat, size: nat)
    requires f.Valid() && c < 0x1_0000
  {
    var n := ClusterBytes(f);
    size == 0 || n == 0 ||
      var t := LastPass(n, size);
      (t + 1) * n < TWO32 || |Follow(m, f, c, t + 1)| <= t
  }

  lemma Multiples(i: nat, j: nat, n: nat)
    requires i <= j
    ensures i * n <= j * n
  {
    assert (j - i) * n >= 0;
    assert j * n == i * n + (j - i) * n;
  }

  /** The sums then fit at every pass, and every copy is right. */
  lemma RightWhen(m: Ram, f: Layout, c: nat, size: nat, i: nat)
    requires f.Valid() && c < 0x1_0000 && size < TWO32 && SumsFit(m, f, c, size)
    ensures RightAt(m, f, c, size, i)
  {
    var n := ClusterBytes(f);
    RunsWhile(m, f, c, size, i);
    if After(m, f, c, size, i).Running(size) {
      assert Short(n, size, i);
      LastsMore(m, f, c, i);
      if n > 0 {
        NoPassBeyond(m, f, c, size, i, n, LastPass(n, size));
      } else {
        assert i * n == 0 && (i + 1) * n == 0;
      }
      ExactPass(i, n, size);
    }
  }

  lemma ExactPass(i: nat, n: nat, size: nat)
    requires U32(i * n) < size < TWO32 && i * n < TWO32 && (i + 1) * n < TWO32 && n < 0x100_0000
    ensures var at := Min(U32(i * n), size); at == i * n && ToCopy(at, n, size) == Min(n, size - at)
  {
    assert (i + 1) * n == i * n + n;
    CopyIsExact(i * n, n, size);
  }

  lemma NoPassBeyond(m: Ram, f: Layout, c: nat, size: nat, i: nat, n: nat, t: nat)
    requires f.Valid() && c < 0x1_0000 && n < 0x100_0000 && t * n < size <= (t + 1) * n && size < TWO32
    requires (t + 1) * n < TWO32 || |Follow(m, f, c, t + 1)| <= t
    requires LastsFor(m, f, c, i + 1) && AllShort(n, size, i + 1)
    ensures i * n < size && (i + 1) * n < TWO32
  {
    if (t + 1) * n < TWO32 {
      assert i > t ==> !Short(n, size, t + 1);
      Multiples(i + 1, t + 1, n);
      Multiples(i, t, n);
    } else {
      FollowLasts(m, f, c, t + 1);
      var j :| 0 <= j < t + 1 && !InUseAt(m, f, c, j);
      assert i < j;
      Multiples(i + 1, t, n);
      Multiples(i, t, n);
    }
  }

  /** Otherwise the last pass takes place and writes past the end of the file's bytes. */
  lemma PassesTheEnd(m: Ram, f: Layout, c: nat, size: nat) returns (i: nat)
    requires f.Valid() && c < 0x1_0000 && size < TWO32 && !SumsFit(m, f, c, size)
    ensures !InsideAt(m, f, c, size, i)
  {
    var n := ClusterBytes(f);
    i := LastPass(n, size);
    FollowLasts(m, f, c, i + 1);
    forall j | 0 <= j < i + 1 ensures Short(n, size, j) {
      Multiples(j, i, n);
    }
    RunsWhile(m, f, c, size, i);
    LastsMore(m, f, c, i);
    assert AllShort(n, size, i) && Short(n, size, i);
    PastTheEnd(i, n, size);
  }

  lemma PastTheEnd(i: nat, n: nat, size: nat)
    requires i * n < size < TWO32 <= (i + 1) * n && n < 0x100_0000
    ensures var at := Min(U32(i * n), size); at + ToCopy(at, n, size) > size
  {
    assert (i + 1) * n == i * n + n;
    WrapsPast(i * n, n, size);
  }

  lemma WrapsPast(at: nat, n: nat, size: nat)
    requires at < size < TWO32 <= at + n && n < 0x100_0000
    ensures U32(at) == Min(U32(at), size) == at && at + ToCopy(at, n, size) > size
  {
  }

  /** No copy passes the end, and every copy is right, exactly when the sums fit. */
  lemma CopiesRight(m: Ram, f: Layout, c: nat, size: nat)
    requires f.Valid() && c < 0x1_0000 && size < TWO32
    ensures AllRight(m, f, c, size) <==> SumsFit(m, f, c, size)
    ensures AllInside(m, f, c, size) <==> SumsFit(m, f, c, size)
  {
    if SumsFit(m, f, c, size) {
      forall i: nat ensures RightAt(m, f, c, size, i) && InsideAt(m, f, c, size, i) {
        RightWhen(m, f, c, size, i);
      }
    } else {
      var i := PassesTheEnd(m, f, c, size);
      assert !RightAt(m, f, c, size, i);
    }
  }

  /** Without bytes in a cluster the chain has to end, too. */
  ghost predicate CopyFits(m: Ram, f: Layout, c: nat, size: nat)
    requires f.Valid() && c < 0x1_0000
  {
    SumsFit(m, f, c, size) && (ClusterBytes(f) == 0 && size > 0 ==> WalkEnds(m, f, c))
  }

  lemma FitsThenEnds(m: Ram, f: Layout, c: nat, size: nat, n: nat)
    requires f.Valid() && c < 0x1_0000 && size < TWO32 && SumsFit(m, f, c, size) && n == ClusterBytes(f) > 0
    ensures WalkEnds(m, f, c) || Reaches(n, size)
  {
    if size == 0 {
      assert !Short(n, size, 0);
    } else {
      var t := LastPass(n, size);
      if (t + 1) * n < TWO32 {
        assert !Short(n, size, t + 1);
      } else {
        ShortLeads(m, f, c, t + 1);
      }
    }
  }

  /** The loop ends with every copy right exactly then. */
  lemma CopyWorksWhen(m: Ram, f: Layout, c: nat, size: nat)
    requires f.Valid() && c < 0x1_0000 && size < TWO32
    ensures LoopEnds(m, f, c, size) && AllRight(m, f, c, size) <==> CopyFits(m, f, c, size)
  {
    CopiesRight(m, f, c, size);
    EndsOrReaches(m, f, c, size);
    if ClusterBytes(f) == 0 {
      NoBytesReach(size);
    } else if SumsFit(m, f, c, size) {
      FitsThenEnds(m, f, c, size, ClusterBytes(f));
    }
  }

  // ---- a volume on which it fails ----

  /** Cluster 2 is its own successor. */
  function Circle(): Ram { Image(1, (k: nat) => if k == 516 then 2 else 0) }

  lemma {:induction false} RoundAndRound(m: Ram, f: Layout, c: nat, i: nat)
    requires c < 0x1_0000 && Fat(m, f, c) == c
    ensures Nth(m, f, c, i) == c
    decreases i
  {
    if i > 0 {
      RoundAndRound(m, f, c, i - 1);
    }
  }

  /** A file of 2^32 - 1 bytes on a chain in a circle: the last sum comes to 2^32, the copy passes the end of
      the buffer, and the loop starts again from offset 0, for ever. */
  lemma CopiesForEver()
    ensures Mounted(Circle()) == TINY
    ensures !WalkEnds(Circle(), TINY, 2) && !LoopEnds(Circle(), TINY, 2, 0xFFFF_FFFF)
    ensures !AllInside(Circle(), TINY, 2, 0xFFFF_FFFF)
  {
    var m, size := Circle(), 0xFFFF_FFFF;
    ImageMounts(m, 1);
    assert Fat(m, TINY, 2) == 2;
    forall i: nat ensures InUseAt(m, TINY, 2, i) {
      RoundAndRound(m, TINY, 2, i);
    }
    EndsAtNoCluster(m, TINY, 2);
    EndsWhen(m, TINY, 2, size);
    PowerIs512();
    CopiesRight(m, TINY, 2, size);
    FollowLasts(m, TINY, 2, LastPass(512, size) + 1);
  }

  lemma PowerIs512()
    ensures Pow2(Twos(512)) == 512
  {
    assert Twos(16) == 4 && Twos(256) == 8 && Pow2(4) == 16 && Pow2(8) == 256;
  }
}
