/** What the interleaved files hold: the loaded segments' bytes, address by address. */
module ElfFiles {
  import opened Machine32
  import opened Bits
  import opened ElfWords
  import opened ElfWriters

  // ---- the image, segment by segment ----

  /** No areas are given, or the segment's bytes lie in one of them. */
  ghost predicate Admitted(s: Segment, areas: seq<(nat, nat)>)
  {
    |areas| == 0 || exists k :: 0 <= k < |areas| && areas[k].0 <= s.addr && s.addr + |s.data| <= areas[k].1
  }

  /** An admitted segment has a byte at `a`. */
  ghost predicate Supplies(s: Segment, areas: seq<(nat, nat)>, a: nat)
  {
    Admitted(s, areas) && s.addr <= a < s.addr + |s.data|
  }

  lemma AdmittedIsWanted(s: Segment, areas: seq<(nat, nat)>)
    ensures Admitted(s, areas) <==> Wanted(s, areas)
  {
    forall k | 0 <= k < |areas|
      ensures InArea(s, areas[k]) <==> areas[k].0 <= s.addr && s.addr + |s.data| <= areas[k].1
    {
    }
  }

  /** For disjoint segments the image at `a` is the byte of the one admitted segment that has one there, or 0. */
  lemma {:induction false} ImageIs(ss: seq<Segment>, areas: seq<(nat, nat)>, a: nat, i: nat)
    requires AllDisjoint(ss) && i < |ss| && Supplies(ss[i], areas, a)
    ensures Image(ss, areas, a) == ss[i].data[a - ss[i].addr]
    decreases |ss|
  {
    var n := |ss| - 1;
    AdmittedIsWanted(ss[n], areas);
    if i < n {
      assert Disjoint(ss[i], ss[n]);
      ImageIs(ss[..n], areas, a, i);
    }
  }

  lemma {:induction false} ImageIsZero(ss: seq<Segment>, areas: seq<(nat, nat)>, a: nat)
    requires forall i :: 0 <= i < |ss| ==> !Supplies(ss[i], areas, a)
    ensures Image(ss, areas, a) == 0
    decreases |ss|
  {
    if ss != [] {
      var n := |ss| - 1;
      AdmittedIsWanted(ss[n], areas);
      ImageIsZero(ss[..n], areas, a);
    }
  }

  // ---- the words that are there ----

  /** The word at `a` is that of one of `n` addresses from `base` on. */
  ghost predicate WordInRange(base: nat, n: nat, lg: nat, a: nat)
  {
    exists x: nat :: base <= x < base + n && Align(x, lg) == a
  }

  /** An admitted segment has a byte, or a zero behind its bytes, in the word at `a`. */
  ghost predicate Occupies(s: Segment, areas: seq<(nat, nat)>, lg: nat, a: nat)
  {
    Admitted(s, areas)
    && exists x: nat :: (s.addr <= x < s.addr + |s.data| || s.addr <= x < s.addr + s.memSize) && Align(x, lg) == a
  }

  lemma RangeSplits(base: nat, n: nat, k: nat, lg: nat, a: nat)
    requires 0 < k <= n && base + k <= Align(base, lg) + Width(lg)
    ensures WordInRange(base, n, lg, a) <==> a == Align(base, lg) || WordInRange(base + k, n - k, lg, a)
  {
    Aligned(base, lg);
    forall x: nat | base <= x < base + k ensures Align(x, lg) == Align(base, lg) {
      SharesWord(base, x, lg);
    }
  }

  lemma {:induction false} AddKeys(m: Words, base: nat, data: seq<Byte>, lg: nat, m': Words, a: nat)
    requires m' == Add(m, base, data, lg)
    ensures a in m' <==> a in m || WordInRange(base, |data|, lg, a)
    decreases |data|
  {
    if data != [] {
      var n := Fitting(base, |data|, lg);
      RangeSplits(base, |data|, n, lg, a);
      AddKeys(AddWord(m, base, data, lg), base + n, data[n..], lg, m', a);
    }
  }

  lemma SegmentKeys(m: Words, s: Segment, areas: seq<(nat, nat)>, lg: nat, m': Words, a: nat)
    requires Admitted(s, areas) && m' == AddSegment(m, s, lg)
    ensures a in m' <==> a in m || Occupies(s, areas, lg, a)
  {
    var m1 := Add(m, s.addr, s.data, lg);
    AddKeys(m, s.addr, s.data, lg, m1, a);
    if |s.data| < s.memSize {
      AddKeys(m1, s.addr + |s.data|, Zeros(s.memSize - |s.data|), lg, m', a);
    }
    OccupiesIs(s, areas, lg, a);
  }

  lemma OccupiesIs(s: Segment, areas: seq<(nat, nat)>, lg: nat, a: nat)
    requires Admitted(s, areas)
    ensures Occupies(s, areas, lg, a) <==>
      WordInRange(s.addr, |s.data|, lg, a)
      || (|s.data| < s.memSize && WordInRange(s.addr + |s.data|, s.memSize - |s.data|, lg, a))
  {
  }

  /** The map has exactly the words in which an admitted segment, overlapping others or not, has a byte or a zero. */
  lemma {:induction false} ParseKeys(ss: seq<Segment>, areas: seq<(nat, nat)>, lg: nat, a: nat)
    ensures a in Parse(ss, areas, lg) <==> exists i :: 0 <= i < |ss| && Occupies(ss[i], areas, lg, a)
    decreases |ss|
  {
    if ss != [] {
      var n := |ss| - 1;
      AdmittedIsWanted(ss[n], areas);
      ParseKeys(ss[..n], areas, lg, a);
      KeysBefore(ss, areas, lg, a);
      if Admitted(ss[n], areas) {
        SegmentKeys(Parse(ss[..n], areas, lg), ss[n], areas, lg, Parse(ss, areas, lg), a);
      }
    }
  }

  lemma KeysBefore(ss: seq<Segment>, areas: seq<(nat, nat)>, lg: nat, a: nat)
    requires ss != []
    ensures var n := |ss| - 1;
      (exists i :: 0 <= i < |ss| && Occupies(ss[i], areas, lg, a))
      <==> (exists i :: 0 <= i < |ss[..n]| && Occupies(ss[..n][i], areas, lg, a)) || Occupies(ss[n], areas, lg, a)
  {
    var n := |ss| - 1;
    forall i | 0 <= i < n ensures ss[..n][i] == ss[i] {
    }
    if i :| 0 <= i < n && Occupies(ss[i], areas, lg, a) {
      assert Occupies(ss[..n][i], areas, lg, a);
    }
  }

  // ---- the bytes of a row ----

  /** Four bytes from `a` on, those of a low and a high half. */
  ghost predicate RowHolds(ss: seq<Segment>, areas: seq<(nat, nat)>, a: nat, lo: nat, hi: nat)
  {
    lo == Image(ss, areas, a) as nat + 256 * Image(ss, areas, a + 1) as nat
    && hi == Image(ss, areas, a + 2) as nat + 256 * Image(ss, areas, a + 3) as nat
  }

  lemma WordBytes(m: Words, q: nat, k: nat)
    requires k < 4
    ensures Align(4 * q + k, 2) == 4 * q && At(m, 2, 4 * q + k) == ByteOf(Get(m, 4 * q), k)
  {
    AlignFour(4 * q + k, q, k);
  }

  lemma AlignFour(a: nat, q: nat, k: nat)
    requires a == 4 * q + k && k < 4
    ensures Align(a, 2) == 4 * q
  {
    DivModUnique(a, 2, 2 * q + k / 2, k % 2);
    DivModUnique(2 * q + k / 2, 2, q, k / 2);
    assert Align(2 * q + k / 2, 1) == 2 * Align(q, 0);
  }

  lemma FourBytes(v: nat)
    requires v < 0x1_0000_0000
    ensures v % 0x1_0000 == ByteOf(v, 0) as nat + 256 * ByteOf(v, 1) as nat
    ensures v / 0x1_0000 == ByteOf(v, 2) as nat + 256 * ByteOf(v, 3) as nat
  {
    TwoBytes(v);
    TwoBytes(v / 0x1_0000);
    HighBytes(v);
    DivModUnique(v / 0x1_0000, 0x1_0000, 0, v / 0x1_0000);
  }

  lemma HighBytes(v: nat)
    ensures ByteOf(v, 2) == ByteOf(v / 0x1_0000, 0) && ByteOf(v, 3) == ByteOf(v / 0x1_0000, 1)
  {
    assert v / 256 / 256 == v / 0x1_0000;
    assert ByteOf(v, 2) == ByteOf(v / 256, 1) && ByteOf(v, 3) == ByteOf(v / 256, 2);
  }

  lemma TwoBytes(v: nat)
    ensures v % 0x1_0000 == ByteOf(v, 0) as nat + 256 * ByteOf(v, 1) as nat
  {
    var q := v / 0x1_0000;
    var l := v % 0x1_0000;
    DivModUnique(v, 256, 256 * q + l / 256, l % 256);
    DivModUnique(256 * q + l / 256, 256, q, l / 256);
    assert ByteOf(v, 1) == ByteOf(v / 256, 0);
  }

  lemma WordFits(ss: seq<Segment>, areas: seq<(nat, nat)>, m: Words, a: nat)
    requires m == Parse(ss, areas, 2)
    ensures Get(m, a) < 0x1_0000_0000
  {
    ParseBounded(ss, areas, 2);
    assert Width(2) == 4;
    assert Pow256(4) == 0x1_0000_0000 by { assert Pow256(2) == 0x1_0000; }
  }

  /** Byte `k` of a word is the image's byte at `a + k`. */
  predicate SameByte(ss: seq<Segment>, areas: seq<(nat, nat)>, a: nat, v: nat, k: nat)
  {
    ByteOf(v, k) == Image(ss, areas, a + k)
  }

  lemma ByteIsImage(ss: seq<Segment>, areas: seq<(nat, nat)>, m: Words, a: nat, k: nat)
    requires AllDisjoint(ss) && m == Parse(ss, areas, 2) && a % 4 == 0 && k < 4
    ensures SameByte(ss, areas, a, Get(m, a), k)
  {
    var q := a / 4;
    assert a == 4 * q;
    WordBytes(m, q, k);
    ParseIsImage(ss, areas, 2, a + k);
  }

  /** The word at an aligned address, in two halves, is the image's four bytes there. */
  lemma RowIsImage(ss: seq<Segment>, areas: seq<(nat, nat)>, m: Words, a: nat, v: nat)
    requires AllDisjoint(ss) && m == Parse(ss, areas, 2) && a % 4 == 0 && v == Get(m, a)
    ensures RowHolds(ss, areas, a, v % 0x1_0000, v / 0x1_0000)
  {
    WordFits(ss, areas, m, a);
    forall k: nat | k < 4 ensures SameByte(ss, areas, a, v, k) {
      ByteIsImage(ss, areas, m, a, k);
    }
    RowOfBytes(ss, areas, a, v);
  }

  lemma RowOfBytes(ss: seq<Segment>, areas: seq<(nat, nat)>, a: nat, v: nat)
    requires v < 0x1_0000_0000 && forall k: nat :: k < 4 ==> SameByte(ss, areas, a, v, k)
    ensures RowHolds(ss, areas, a, v % 0x1_0000, v / 0x1_0000)
  {
    FourBytes(v);
    assert SameByte(ss, areas, a, v, 0) && SameByte(ss, areas, a, v, 1);
    assert SameByte(ss, areas, a, v, 2) && SameByte(ss, areas, a, v, 3);
  }

  /** Row `r` stands for the four bytes from 0x8000_0000 + 4 * r on. */
  ghost predicate LineHolds(ss: seq<Segment>, areas: seq<(nat, nat)>, a: nat, lo: Line, hi: Line)
  {
    lo.row == hi.row && a == 0x8000_0000 + 4 * lo.row && RowHolds(ss, areas, a, lo.half, hi.half)
  }

  /** Each word of the map has its line in both files, and the halves are the image's bytes; an address without a
      line has an all-zero image; no two lines share a row. */
  lemma FilesHoldImage(ss: seq<Segment>, areas: seq<(nat, nat)>, m: Words, keys: seq<nat>,
                       low: seq<Line>, high: seq<Line>)
    requires AllDisjoint(ss) && m == Parse(ss, areas, 2) && (forall a :: a in m <==> a in keys)
    requires Interleaved(m, keys, low, high)
    ensures |low| == |keys| == |high|
    ensures forall i :: 0 <= i < |keys| ==> LineHolds(ss, areas, keys[i], low[i], high[i])
    ensures forall a :: a % 4 == 0 && Unwritten(low, a) ==> RowHolds(ss, areas, a, 0, 0)
  {
    forall i | 0 <= i < |keys| ensures LineHolds(ss, areas, keys[i], low[i], high[i]) {
      KeysLine(ss, areas, m, keys[i], low[i], high[i]);
    }
    forall a: nat | a % 4 == 0 && Unwritten(low, a) ensures RowHolds(ss, areas, a, 0, 0) {
      forall i | 0 <= i < |keys| ensures keys[i] != a {
        assert LineHolds(ss, areas, keys[i], low[i], high[i]);
      }
      RowIsImage(ss, areas, m, a, 0);
    }
  }

  lemma KeysLine(ss: seq<Segment>, areas: seq<(nat, nat)>, m: Words, a: nat, lo: Line, hi: Line)
    requires AllDisjoint(ss) && m == Parse(ss, areas, 2) && a in m
    requires lo == LowLine(a, m[a]) && hi == HighLine(a, m[a])
    ensures LineHolds(ss, areas, a, lo, hi)
  {
    ParseAligned(ss, areas, 2);
    AlignedKey(a);
    RowIsImage(ss, areas, m, a, m[a]);
    LineOf(ss, areas, a, m[a], lo, hi);
  }

  lemma LineOf(ss: seq<Segment>, areas: seq<(nat, nat)>, a: nat, v: nat, lo: Line, hi: Line)
    requires lo == LowLine(a, v) && hi == HighLine(a, v) && a == 0x8000_0000 + 4 * Row(a)
    requires RowHolds(ss, areas, a, v % 0x1_0000, v / 0x1_0000)
    ensures LineHolds(ss, areas, a, lo, hi)
  {
  }

  lemma AlignedKey(a: nat)
    requires Align(a, 2) == a
    ensures a % 4 == 0 && a == 0x8000_0000 + 4 * Row(a)
  {
    AlignFour(a, a / 4, a % 4);
    RowDivides(a, a / 4);
  }

  lemma RowDivides(a: nat, q: nat)
    requires a == 4 * q
    ensures a % 4 == 0 && a == 0x8000_0000 + 4 * Row(a)
  {
    assert a - 0x8000_0000 == 4 * (q - 0x2000_0000);
  }

  /** No line stands for the address `a`. */
  ghost predicate Unwritten(file: seq<Line>, a: nat)
  {
    forall i :: 0 <= i < |file| ==> 0x8000_0000 + 4 * file[i].row != a
  }
}
