/** Writing the word map out: interleaved halves, and a flat binary in the order of sorted keys. */
module ElfWriters {
  import opened Machine32
  import opened Bits
  import opened Decimal
  import opened ElfWords

  // ---- words stay within their width ----

  ghost predicate Bounded(m: Words, lg: nat)
  {
    forall a :: a in m ==> m[a] < Pow256(Width(lg))
  }

  lemma {:induction false} BytesAreBits(k: nat)
    ensures Pow256(k) == Pow2(8 * k)
  {
    if k > 0 {
      BytesAreBits(k - 1);
      PowSplit(8 * (k - 1), 8);
      assert Pow2(8) == 256 by { assert Pow2(4) == 16; }
    }
  }

  lemma OrBounded(x: nat, y: nat, k: nat)
    requires x < Pow2(k) && y < Pow2(k)
    ensures Or(x, y) < Pow2(k)
  {
    assert Pow2(k) * 0 == 0;
    SplitIs(x, 0, x, k, Pow2(k));
    SplitIs(y, 0, y, k, Pow2(k));
    OrFields(x, 0, x, y, 0, y, k);
    SplitIs(Or(x, y), 0, Or(x, y), k, Pow2(k));
  }

  lemma {:induction false} AndNotSmaller(x: nat, y: nat)
    ensures AndNot(x, y) <= x
  {
    if x > 0 {
      AndNotSmaller(x / 2, y / 2);
    }
  }

  lemma {:induction false} LittleEndianBounded(d: seq<Byte>)
    ensures LittleEndian(d) < Pow256(|d|)
  {
    if d != [] {
      LittleEndianBounded(d[1..]);
    }
  }

  lemma {:induction false} PowerGrows(a: nat, b: nat)
    requires a <= b
    ensures Pow256(a) <= Pow256(b)
    decreases b - a
  {
    if a < b {
      PowerGrows(a, b - 1);
    }
  }

  lemma {:induction false} ShiftBounded(v: nat, n: nat, s: nat, w: nat)
    requires v < Pow256(n) && n + s <= w
    ensures Shifted(v, s) < Pow256(w)
    decreases s
  {
    if s == 0 {
      PowerGrows(n, w);
    } else {
      ShiftBounded(v, n, s - 1, w - 1);
    }
  }

  lemma AddWordBounded(m: Words, base: nat, data: seq<Byte>, lg: nat)
    requires Bounded(m, lg)
    ensures Bounded(AddWord(m, base, data, lg), lg)
  {
    Aligned(base, lg);
    var at, n, w := Align(base, lg), Fitting(base, |data|, lg), Width(lg);
    var v := Get(m, at);
    AndNotSmaller(v, Mask(lg, base - at));
    LittleEndianBounded(data[..n]);
    ShiftBounded(LittleEndian(data[..n]), n, base - at, w);
    BytesAreBits(w);
    OrBounded(AndNot(v, Mask(lg, base - at)), Shifted(LittleEndian(data[..n]), base - at), 8 * w);
  }

  lemma {:induction false} AddBounded(m: Words, base: nat, data: seq<Byte>, lg: nat)
    requires Bounded(m, lg)
    ensures Bounded(Add(m, base, data, lg), lg)
    decreases |data|
  {
    if data != [] {
      var n := Fitting(base, |data|, lg);
      AddWordBounded(m, base, data, lg);
      AddBounded(AddWord(m, base, data, lg), base + n, data[n..], lg);
    }
  }

  /** Whatever the segments, overlapping or not, no word outgrows its width. */
  lemma {:induction false} ParseBounded(ss: seq<Segment>, areas: seq<(nat, nat)>, lg: nat)
    ensures Bounded(Parse(ss, areas, lg), lg)
    decreases |ss|
  {
    if ss != [] {
      var s := ss[|ss| - 1];
      var m := Parse(ss[..|ss| - 1], areas, lg);
      ParseBounded(ss[..|ss| - 1], areas, lg);
      AddBounded(m, s.addr, s.data, lg);
      if |s.data| < s.memSize {
        AddBounded(Add(m, s.addr, s.data, lg), s.addr + |s.data|, Zeros(s.memSize - |s.data|), lg);
      }
    }
  }

  // ---- interleaved halves ----

  /** The halves that go to the two memories for each word, and the row they go to. */
  datatype Line = Line(row: int, half: nat)

  function LowLine(a: nat, v: nat): Line { Line(Row(a), v % 0x1_0000) }

  function HighLine(a: nat, v: nat): Line { Line(Row(a), v / 0x1_0000) }

  /** Both memories get 16-bit halves, and together the two at a word's row are the word. */
  lemma HalvesRecombine(ss: seq<Segment>, areas: seq<(nat, nat)>, a: nat)
    requires a in Parse(ss, areas, 2)
    ensures var v := Parse(ss, areas, 2)[a];
      var lo, hi := LowLine(a, v), HighLine(a, v);
      lo.row == hi.row && lo.half < 0x1_0000 && hi.half < 0x1_0000 && lo.half + 0x1_0000 * hi.half == v
  {
    ParseBounded(ss, areas, 2);
    assert Width(2) == 4;
    assert Pow256(4) == TWO32 by { assert Pow256(2) == 0x1_0000; }
  }

  lemma {:induction false} AddAligned(m: Words, base: nat, data: seq<Byte>, lg: nat)
    requires KeysAligned(m, lg)
    ensures KeysAligned(Add(m, base, data, lg), lg)
    decreases |data|
  {
    if data != [] {
      AlignTwice(base, lg);
      AddAligned(AddWord(m, base, data, lg), base + Fitting(base, |data|, lg), data[Fitting(base, |data|, lg)..], lg);
    }
  }

  ghost predicate KeysAligned(m: Words, lg: nat)
  {
    forall a :: a in m ==> Align(a, lg) == a
  }

  lemma AlignTwice(a: nat, lg: nat)
    ensures Align(Align(a, lg), lg) == Align(a, lg)
  {
    Aligned(a, lg);
    SharesWord(a, Align(a, lg), lg);
  }

  lemma {:induction false} ParseAligned(ss: seq<Segment>, areas: seq<(nat, nat)>, lg: nat)
    ensures KeysAligned(Parse(ss, areas, lg), lg)
    decreases |ss|
  {
    if ss != [] {
      var s := ss[|ss| - 1];
      ParseAligned(ss[..|ss| - 1], areas, lg);
      AddAligned(Parse(ss[..|ss| - 1], areas, lg), s.addr, s.data, lg);
      if |s.data| < s.memSize {
        AddAligned(Add(Parse(ss[..|ss| - 1], areas, lg), s.addr, s.data, lg),
                   s.addr + |s.data|, Zeros(s.memSize - |s.data|), lg);
      }
    }
  }

  /** The row of a word's address in either memory. */
  function Row(a: nat): int { (a - 0x8000_0000) / 4 }

  lemma RowsApart(a: nat, b: nat)
    requires Align(a, 2) == a && Align(b, 2) == b && a != b
    ensures Row(a) != Row(b)
  {
    assert Align(a, 2) == 4 * (a / 4) && Align(b, 2) == 4 * (b / 4);
  }

  /** No two words share a row. */
  lemma RowsDistinct(ss: seq<Segment>, areas: seq<(nat, nat)>, a: nat, b: nat)
    requires a in Parse(ss, areas, 2) && b in Parse(ss, areas, 2) && a != b
    ensures Row(a) != Row(b)
  {
    ParseAligned(ss, areas, 2);
    RowsApart(a, b);
  }

  /** One line for each key in either file, both at the key's row. */
  predicate Interleaved(m: Words, keys: seq<nat>, low: seq<Line>, high: seq<Line>)
  {
    |low| == |keys| == |high|
    && forall i :: 0 <= i < |keys| ==>
         keys[i] in m && low[i] == LowLine(keys[i], m[keys[i]]) && high[i] == HighLine(keys[i], m[keys[i]])
  }

  /** Writes the two files, one line for each key, in the order of the sorted keys. */
  method WriteInterleaved(m: Words, keys: seq<nat>) returns (low: seq<Line>, high: seq<Line>)
    requires forall a :: a in keys ==> a in m
    ensures Interleaved(m, keys, low, high)
  {
    low := [];
    for i := 0 to |keys|
      invariant |low| == i && forall k :: 0 <= k < i ==> low[k] == LowLine(keys[k], m[keys[k]])
    {
      assert keys[i] in keys;
      low := low + [LowLine(keys[i], m[keys[i]])];
    }
    high := [];
    for i := 0 to |keys|
      invariant |high| == i && forall k :: 0 <= k < i ==> high[k] == HighLine(keys[k], m[keys[k]])
    {
      assert keys[i] in keys;
      high := high + [HighLine(keys[i], m[keys[i]])];
    }
  }

  // ---- string order of decimal keys ----

  /** The order in which Python compares strings. */
  predicate LexLess(s: seq<Byte>, t: seq<Byte>)
    decreases |s|
  {
    if t == [] then false
    else if s == [] then true
    else s[0] < t[0] || (s[0] == t[0] && LexLess(s[1..], t[1..]))
  }

  lemma {:induction false} LexAppend(s: seq<Byte>, t: seq<Byte>, u: seq<Byte>, v: seq<Byte>)
    requires |s| == |t|
    ensures LexLess(s + u, t + v) <==> LexLess(s, t) || (s == t && LexLess(u, v))
    decreases |s|
  {
    if s == [] {
      assert s + u == u && t + v == v;
    } else {
      assert (s + u)[1..] == s[1..] + u && (t + v)[1..] == t[1..] + v;
      assert s == [s[0]] + s[1..] && t == [t[0]] + t[1..];
      LexAppend(s[1..], t[1..], u, v);
    }
  }

  /** Numerals of one length compare as the numbers do. */
  lemma {:induction false} LexNumeric(a: nat, b: nat)
    requires |Dec(a)| == |Dec(b)|
    ensures LexLess(Dec(a), Dec(b)) <==> a < b
    ensures Dec(a) == Dec(b) <==> a == b
    decreases a
  {
    DecDenotes(a);
    DecDenotes(b);
    if a >= 10 {
      LexNumeric(a / 10, b / 10);
      LexAppend(Dec(a / 10), Dec(b / 10), [ZERO + a % 10], [ZERO + b % 10]);
    }
  }

  /** `b` without its last `k` digits. */
  function Leading(b: nat, k: nat): nat
    decreases k
  {
    if k == 0 then b else Leading(b / 10, k - 1)
  }

  /** A numeral starts with the numeral of its leading digits. */
  lemma {:induction false} LeadingDigits(b: nat, n: nat, k: nat) returns (tail: seq<Byte>)
    requires |Dec(b)| == n + k && n > 0
    ensures Dec(b) == Dec(Leading(b, k)) + tail && |tail| == k && |Dec(Leading(b, k))| == n
    decreases k
  {
    if k == 0 {
      tail := [];
      assert Dec(b) + [] == Dec(b);
    } else {
      var t := LeadingDigits(b / 10, n, k - 1);
      tail := t + [ZERO + b % 10];
      assert (Dec(Leading(b, k)) + t) + [ZERO + b % 10] == Dec(Leading(b, k)) + tail;
    }
  }

  /** A key comes before a larger one exactly when it is at most the larger one's leading digits. */
  lemma LexOrder(a: nat, b: nat)
    requires a < b
    ensures |Dec(a)| <= |Dec(b)|
    ensures LexLess(Dec(a), Dec(b)) <==> a <= Leading(b, |Dec(b)| - |Dec(a)|)
    ensures !LexLess(Dec(a), Dec(b)) ==> LexLess(Dec(b), Dec(a))
  {
    LengthGrows(a, b);
    var n, k := |Dec(a)|, |Dec(b)| - |Dec(a)|;
    var c := Leading(b, k);
    var tail := LeadingDigits(b, n, k);
    LexNumeric(a, c);
    LexNumeric(c, a);
    LexWithTail(Dec(a), Dec(c), tail);
  }

  lemma LexWithTail(s: seq<Byte>, t: seq<Byte>, tail: seq<Byte>)
    requires |s| == |t|
    ensures LexLess(s, t + tail) <==> LexLess(s, t) || (s == t && tail != [])
    ensures LexLess(t + tail, s) <==> LexLess(t, s)
  {
    assert s + [] == s;
    LexAppend(s, t, [], tail);
    LexAppend(t, s, tail, []);
  }

  lemma {:induction false} LengthGrows(a: nat, b: nat)
    requires a <= b
    ensures |Dec(a)| <= |Dec(b)|
    decreases a
  {
    if a >= 10 {
      LengthGrows(a / 10, b / 10);
    }
  }

  /** Keys as Python's sort leaves them. */
  ghost predicate StringSorted(keys: seq<nat>)
  {
    forall i, j :: 0 <= i < j < |keys| ==> LexLess(Dec(keys[i]), Dec(keys[j]))
  }

  predicate Increasing(keys: seq<nat>) { forall i, j :: 0 <= i < j < |keys| ==> keys[i] < keys[j] }

  /** `b`, cut to as many leading digits as `a` has. */
  function Cut(b: nat, a: nat): nat
  {
    if |Dec(b)| >= |Dec(a)| then Leading(b, |Dec(b)| - |Dec(a)|) else b
  }

  /** No key exceeds the leading digits of a larger one. */
  ghost predicate Compatible(keys: seq<nat>)
  {
    forall a, b :: a in keys && b in keys && a < b ==> a <= Cut(b, a)
  }

  /** String order is address order exactly on such keys; so whenever all have the same number of digits. */
  lemma StringOrderIsNumeric(keys: seq<nat>)
    requires StringSorted(keys)
    ensures Increasing(keys) <==> Compatible(keys)
    ensures (forall a, b :: a in keys && b in keys ==> |Dec(a)| == |Dec(b)|) ==> Increasing(keys)
  {
    forall i, j | 0 <= i < j < |keys|
      ensures Compatible(keys) ==> keys[i] < keys[j]
      ensures |Dec(keys[i])| == |Dec(keys[j])| ==> keys[i] < keys[j]
    {
      PairOrder(keys[i], keys[j]);
    }
    if Increasing(keys) {
      forall a, b | a in keys && b in keys && a < b ensures a <= Cut(b, a) {
        var i, j :| 0 <= i < |keys| && 0 <= j < |keys| && keys[i] == a && keys[j] == b;
        IndexOrder(keys, i, j);
        LexOrder(a, b);
      }
    }
  }

  lemma IndexOrder(keys: seq<nat>, i: nat, j: nat)
    requires Increasing(keys) && i < |keys| && j < |keys| && keys[i] < keys[j]
    ensures i < j
  {
  }

  lemma PairOrder(a: nat, b: nat)
    requires LexLess(Dec(a), Dec(b))
    ensures a < b || (b < a && b > Cut(a, b))
    ensures |Dec(a)| == |Dec(b)| ==> a < b
  {
    Irreflexive(Dec(a));
    if b < a {
      LexOrder(b, a);
      Asymmetric(Dec(a), Dec(b));
    }
    if |Dec(a)| == |Dec(b)| {
      LexNumeric(a, b);
    }
  }

  lemma {:induction false} Irreflexive(s: seq<Byte>)
    ensures !LexLess(s, s)
    decreases |s|
  {
    if s != [] {
      Irreflexive(s[1..]);
    }
  }

  lemma {:induction false} Asymmetric(s: seq<Byte>, t: seq<Byte>)
    requires LexLess(s, t)
    ensures !LexLess(t, s)
    decreases |s|
  {
    if s != [] && t != [] && s[0] == t[0] {
      Asymmetric(s[1..], t[1..]);
    }
  }

  // ---- when the gaps between keys end ----

  /** Counting up by one from `prev` meets the address before `addr`. */
  ghost predicate GapEnds(prev: nat, addr: nat)
  {
    exists n: nat :: Up(prev, n) == addr - 1
  }

  function Up(prev: nat, n: nat): nat { prev + n }

  ghost predicate AllGapsEnd(keys: seq<nat>)
  {
    forall i :: 0 < i < |keys| ==> GapEnds(keys[i - 1], keys[i])
  }

  /** Every filling loop between two keys ends exactly on such keys. */
  lemma AllGapsEndWhen(keys: seq<nat>)
    requires StringSorted(keys)
    ensures AllGapsEnd(keys) <==> Compatible(keys)
  {
    StringOrderIsNumeric(keys);
    if AllGapsEnd(keys) {
      forall i, j | 0 <= i < j < |keys| ensures keys[i] < keys[j] {
        Climbs(keys, i, j);
      }
    }
    if Increasing(keys) {
      forall i | 0 < i < |keys| ensures GapEnds(keys[i - 1], keys[i]) {
        assert Up(keys[i - 1], keys[i] - 1 - keys[i - 1]) == keys[i] - 1;
      }
    }
  }

  lemma {:induction false} Climbs(keys: seq<nat>, i: nat, j: nat)
    requires AllGapsEnd(keys) && i < j < |keys|
    ensures keys[i] < keys[j]
    decreases j
  {
    assert GapEnds(keys[j - 1], keys[j]);
    if i < j - 1 {
      Climbs(keys, i, j - 1);
    }
  }

  // ---- the flat binary ----

  /** `out` is the map from address `first` on, 0 where there is no key. */
  ghost predicate IsImage(out: seq<Byte>, m: Words, first: nat)
  {
    forall k :: 0 <= k < |out| ==> out[k] as int == Get(m, first + k)
  }

  /** Writes the bytes in key order, with zeros for the addresses between. */
  method GenStimBin(m: Words, keys: seq<nat>) returns (out: seq<Byte>)
    requires (forall a :: a in m <==> a in keys) && Bounded(m, 0)
    requires StringSorted(keys) && Compatible(keys)
    ensures keys == [] ==> out == []
    ensures keys != [] ==> keys[0] + |out| == keys[|keys| - 1] + 1 && IsImage(out, m, keys[0])
  {
    StringOrderIsNumeric(keys);
    out := [];
    var prev, i := 0, 0;
    while i < |keys|
      invariant 0 <= i <= |keys| && (i == 0 ==> out == [])
      invariant i > 0 ==> prev == keys[i - 1] && keys[0] + |out| == prev + 1 && IsImage(out, m, keys[0])
    {
      if i > 0 {
        out := FillGap(m, keys, i, out);
      }
      prev := keys[i];
      ByteWord(m, prev);
      out := out + [m[prev]];
      i := i + 1;
    }
  }

  lemma ByteWord(m: Words, a: nat)
    requires Bounded(m, 0) && a in m
    ensures m[a] < 256
  {
    assert Width(0) == 1 && Pow256(1) == 256;
  }

  method FillGap(m: Words, keys: seq<nat>, i: nat, out: seq<Byte>) returns (r: seq<Byte>)
    requires (forall a :: a in m <==> a in keys) && Increasing(keys) && 0 < i < |keys|
    requires keys[0] + |out| == keys[i - 1] + 1 && IsImage(out, m, keys[0])
    ensures keys[0] + |r| == keys[i] && IsImage(r, m, keys[0])
  {
    r := out;
    var prev := keys[i - 1];
    while prev != keys[i] - 1
      invariant keys[i - 1] <= prev < keys[i] && keys[0] + |r| == prev + 1 && IsImage(r, m, keys[0])
      decreases keys[i] - prev
    {
      NoKeyBetween(m, keys, i, prev + 1);
      r := r + [0];
      prev := prev + 1;
    }
  }

  lemma NoKeyBetween(m: Words, keys: seq<nat>, i: nat, a: nat)
    requires (forall x :: x in m <==> x in keys) && Increasing(keys) && 0 < i < |keys| && keys[i - 1] < a < keys[i]
    ensures Get(m, a) == 0
  {
    forall k | 0 <= k < |keys| ensures keys[k] <= keys[i - 1] || keys[i] <= keys[k] {
    }
    assert a !in keys;
  }

  /** For disjoint segments, what the flat binary holds at an address is the image's byte. */
  lemma FlatBinaryIsImage(ss: seq<Segment>, areas: seq<(nat, nat)>, a: nat)
    requires AllDisjoint(ss)
    ensures Get(Parse(ss, areas, 0), a) == Image(ss, areas, a) as int
  {
    var m := Parse(ss, areas, 0);
    ParseIsImage(ss, areas, 0, a);
    ParseBounded(ss, areas, 0);
    assert Width(0) == 1;
    Aligned(a, 0);
    if a in m {
      ByteWord(m, a);
    }
  }

  /** Otherwise the writer never catches up: addresses 9 and 10 come as 10, 9. */
  lemma TenBeforeNine()
    ensures StringSorted([10, 9]) && !Compatible([10, 9]) && !AllGapsEnd([10, 9]) && !GapEnds(10, 9)
  {
    assert Dec(10) == [49, 48] && Dec(9) == [57];
    assert LexLess(Dec(10), Dec(9));
    assert Cut(10, 9) == 1;
    assert 9 in [10, 9] && 10 in [10, 9];
  }
}
