/** Building a word map from ELF segments, and writing it out. */
module ElfWords {
  import opened Machine32
  import opened Bits

  // ---- bytes of unbounded words ----

  function Pow256(k: nat): (p: nat)
    ensures p > 0
  {
    if k == 0 then 1 else 256 * Pow256(k - 1)
  }

  /** Byte `k` of a little-endian word. */
  function ByteOf(v: nat, k: nat): Byte
    decreases k, v
  {
    if k == 0 then v % 256 else ByteOf(v / 256, k - 1)
  }

  function LittleEndian(d: seq<Byte>): nat
  {
    if d == [] then 0 else d[0] as nat + 256 * LittleEndian(d[1..])
  }

  /** `x` with the bits of `y` cleared. */
  function AndNot(x: nat, y: nat): nat
  {
    if x == 0 then 0 else 2 * AndNot(x / 2, y / 2) + (if x % 2 == 1 && y % 2 == 0 then 1 else 0)
  }

  lemma OrHalves(x: nat, y: nat)
    ensures Or(x, y) == 2 * Or(x / 2, y / 2) + (if x % 2 == 1 || y % 2 == 1 then 1 else 0)
  {
    if x == 0 {
      assert Or(0, y / 2) == y / 2;
    } else if y == 0 {
      assert Or(x / 2, 0) == x / 2;
    }
  }

  lemma AndNotHalves(x: nat, y: nat)
    ensures AndNot(x, y) == 2 * AndNot(x / 2, y / 2) + (if x % 2 == 1 && y % 2 == 0 then 1 else 0)
  {
  }

  /** `x` is `h` followed by the `k` low bits `l`. */
  predicate Split(x: nat, h: nat, l: nat, k: nat)
  {
    if k == 0 then x == h && l == 0 else x % 2 == l % 2 && Split(x / 2, h, l / 2, k - 1)
  }

  lemma {:induction false} SplitIs(x: nat, h: nat, l: nat, k: nat, p: nat)
    requires p == Pow2(k)
    ensures Split(x, h, l, k) <==> x == p * h + l && l < p
    decreases k
  {
    if k == 0 {
      assert p * h == h;
    } else {
      var q := Pow2(k - 1);
      SplitIs(x / 2, h, l / 2, k - 1, q);
      assert p * h == 2 * (q * h);
    }
  }

  lemma SplitTwice(x: nat, x2: nat, h: nat, l: nat, l2: nat, k: nat)
    requires k > 0 && Split(x2, h, l2, k - 1)
    requires x - 2 * x2 == l - 2 * l2 && 0 <= x - 2 * x2 <= 1
    ensures Split(x, h, l, k)
  {
    assert x / 2 == x2 && l / 2 == l2;
  }

  /** The bitwise operators act on high and low fields separately. */
  lemma {:induction false} OrFields(x: nat, h: nat, l: nat, x': nat, h': nat, l': nat, k: nat)
    requires Split(x, h, l, k) && Split(x', h', l', k)
    ensures Split(Or(x, x'), Or(h, h'), Or(l, l'), k)
    decreases k
  {
    if k > 0 {
      OrFields(x / 2, h, l / 2, x' / 2, h', l' / 2, k - 1);
      OrHalves(x, x');
      OrHalves(l, l');
      SplitTwice(Or(x, x'), Or(x / 2, x' / 2), Or(h, h'), Or(l, l'), Or(l / 2, l' / 2), k);
    }
  }

  lemma {:induction false} AndNotFields(x: nat, h: nat, l: nat, x': nat, h': nat, l': nat, k: nat)
    requires Split(x, h, l, k) && Split(x', h', l', k)
    ensures Split(AndNot(x, x'), AndNot(h, h'), AndNot(l, l'), k)
    decreases k
  {
    if k > 0 {
      AndNotFields(x / 2, h, l / 2, x' / 2, h', l' / 2, k - 1);
      AndNotHalves(x, x');
      AndNotHalves(l, l');
      SplitTwice(AndNot(x, x'), AndNot(x / 2, x' / 2), AndNot(h, h'), AndNot(l, l'), AndNot(l / 2, l' / 2), k);
    }
  }

  lemma ByteSplit(v: nat)
    ensures Split(v, v / 256, v % 256, 8)
  {
    assert Pow2(4) == 16;
    SplitIs(v, v / 256, v % 256, 8, 256);
  }

  lemma {:induction false} OrBytes(x: nat, y: nat, k: nat)
    ensures ByteOf(Or(x, y), k) as int == Or(ByteOf(x, k), ByteOf(y, k))
    decreases k, x
  {
    ByteSplit(x);
    ByteSplit(y);
    OrFields(x, x / 256, x % 256, y, y / 256, y % 256, 8);
    Quotient(Or(x, y), Or(x / 256, y / 256), Or(x % 256, y % 256));
    if k > 0 {
      OrBytes(x / 256, y / 256, k - 1);
    }
  }

  lemma {:induction false} AndNotBytes(x: nat, y: nat, k: nat)
    ensures ByteOf(AndNot(x, y), k) as int == AndNot(ByteOf(x, k), ByteOf(y, k))
    decreases k, x
  {
    ByteSplit(x);
    ByteSplit(y);
    AndNotFields(x, x / 256, x % 256, y, y / 256, y % 256, 8);
    Quotient(AndNot(x, y), AndNot(x / 256, y / 256), AndNot(x % 256, y % 256));
    if k > 0 {
      AndNotBytes(x / 256, y / 256, k - 1);
    }
  }

  lemma Quotient(v: nat, q: nat, r: nat)
    requires Split(v, q, r, 8)
    ensures v / 256 == q && v % 256 == r
  {
    assert Pow2(4) == 16;
    SplitIs(v, q, r, 8, 256);
  }

  /** `v` moved up by `s` bytes. */
  function Shifted(v: nat, s: nat): nat
    decreases s
  {
    if s == 0 then v else 256 * Shifted(v, s - 1)
  }

  lemma {:induction false} ShiftedBytes(v: nat, s: nat, k: nat)
    ensures ByteOf(Shifted(v, s), k) == if k < s then 0 else ByteOf(v, k - s)
    decreases s
  {
    if s > 0 && k > 0 {
      ShiftedBytes(v, s - 1, k - 1);
    }
  }

  lemma {:induction false} ZeroBytes(k: nat)
    ensures ByteOf(0, k) == 0
  {
    if k > 0 {
      ZeroBytes(k - 1);
    }
  }

  lemma {:induction false} LittleEndianBytes(d: seq<Byte>, k: nat)
    ensures ByteOf(LittleEndian(d), k) == if k < |d| then d[k] else 0
    decreases |d|
  {
    if d == [] {
      ZeroBytes(k);
    } else {
      if k > 0 {
        LittleEndianBytes(d[1..], k - 1);
      }
    }
  }

  // ---- adding bytes to the word map, in words of 2^lg bytes ----

  function Width(lg: nat): (w: nat)
    ensures w > 0
  {
    Pow2(lg)
  }

  /** The address of the word that holds address `a`: its low `lg` bits are zero. */
  function Align(a: nat, lg: nat): nat
    decreases lg
  {
    if lg == 0 then a else 2 * Align(a / 2, lg - 1)
  }

  /** The mask that makes room for new bytes: one bit, not one byte, for each byte of a word. */
  function Mask(lg: nat, shift: nat): nat { Shifted(Pow2(Width(lg)) - 1, shift) }

  type Words = map<nat, nat>

  function Get(m: Words, a: nat): nat { if a in m then m[a] else 0 }

  /** The byte at address `a`. */
  function At(m: Words, lg: nat, a: nat): Byte
  {
    Aligned(a, lg);
    ByteOf(Get(m, Align(a, lg)), a - Align(a, lg))
  }

  /** How many of `size` bytes fit the word at `base`. */
  function Fitting(base: nat, size: nat, lg: nat): (n: nat)
    ensures n <= size && base + n <= Align(base, lg) + Width(lg) && (size > 0 ==> n > 0)
  {
    Aligned(base, lg);
    var room := Width(lg) - (base - Align(base, lg));
    if room > size then size else room
  }

  function Merged(v: nat, data: seq<Byte>, lg: nat, shift: nat): nat
  {
    Or(AndNot(v, Mask(lg, shift)), Shifted(LittleEndian(data), shift))
  }

  function AddWord(m: Words, base: nat, data: seq<Byte>, lg: nat): Words
  {
    Aligned(base, lg);
    var at := Align(base, lg);
    m[at := Merged(Get(m, at), data[..Fitting(base, |data|, lg)], lg, base - at)]
  }

  function Add(m: Words, base: nat, data: seq<Byte>, lg: nat): Words
    decreases |data|
  {
    if data == [] then m
    else
      var n := Fitting(base, |data|, lg);
      Add(AddWord(m, base, data, lg), base + n, data[n..], lg)
  }

  lemma {:induction false} AndNotZero(x: nat)
    ensures AndNot(x, 0) == x
  {
    if x > 0 {
      AndNotZero(x / 2);
    }
  }

  /** Rounding down clears the low bits. */
  lemma {:induction false} AlignClears(a: nat, lg: nat, w: nat)
    requires w == Width(lg)
    ensures AndNot(a, w - 1) == Align(a, lg)
    decreases lg
  {
    if lg == 0 {
      AndNotZero(a);
    } else {
      AlignClears(a / 2, lg - 1, Width(lg - 1));
      AndNotHalves(a, w - 1);
    }
  }

  lemma {:induction false} Aligned(a: nat, lg: nat)
    ensures Align(a, lg) <= a < Align(a, lg) + Width(lg)
    decreases lg
  {
    if lg > 0 {
      Aligned(a / 2, lg - 1);
    }
  }

  lemma {:induction false} SharesWord(a: nat, b: nat, lg: nat)
    ensures Align(a, lg) == Align(b, lg) <==> Align(a, lg) <= b < Align(a, lg) + Width(lg)
    decreases lg
  {
    if lg > 0 {
      SharesWord(a / 2, b / 2, lg - 1);
    }
  }

  lemma {:induction false} FirstWordIsZero(a: nat, lg: nat)
    ensures a < Width(lg) <==> Align(a, lg) == 0
    decreases lg
  {
    if lg > 0 {
      FirstWordIsZero(a / 2, lg - 1);
    }
  }

  class Stim {
    var mem: Words

    constructor ()
      ensures mem == map[]
    {
      mem := map[];
    }

    method AddMemWord(base: nat, data: seq<Byte>, lg: nat) returns (n: nat)
      modifies this
      ensures mem == AddWord(old(mem), base, data, lg) && n == Fitting(base, |data|, lg)
    {
      Aligned(base, lg);
      AlignClears(base, lg, Width(lg));
      var aligned := AndNot(base, Width(lg) - 1);
      var shift := base - aligned;
      n := Width(lg) - shift;
      if n > |data| {
        n := |data|;
      }
      var value := if aligned in mem then mem[aligned] else 0;
      value := AndNot(value, Mask(lg, shift));
      value := Or(value, Shifted(LittleEndian(data[..n]), shift));
      mem := mem[aligned := value];
    }

    method AddMem(base: nat, data: seq<Byte>, lg: nat)
      modifies this
      ensures mem == Add(old(mem), base, data, lg)
    {
      var b, d := base, data;
      while |d| > 0
        invariant Add(old(mem), base, data, lg) == Add(mem, b, d, lg)
        decreases |d|
      {
        var n := AddMemWord(b, d, lg);
        b, d := b + n, d[n..];
      }
    }
  }

  // ---- what a step does to the bytes ----

  lemma SmallMask(lg: nat)
    requires lg <= 3
    ensures Pow2(Width(lg)) <= 256
  {
    assert Pow2(4) == 16;
    assert Width(lg) == 1 || Width(lg) == 2 || Width(lg) == 4 || Width(lg) == 8;
  }

  /** Up to 8-byte words the mask reaches no byte but the first to be written. */
  lemma MaskBytes(lg: nat, shift: nat, k: nat)
    requires lg <= 3
    ensures k != shift ==> ByteOf(Mask(lg, shift), k) == 0
  {
    SmallMask(lg);
    ShiftedBytes(Pow2(Width(lg)) - 1, shift, k);
    if k > shift {
      assert (Pow2(Width(lg)) - 1) / 256 == 0;
      ZeroBytes(k - shift - 1);
    }
  }

  /** Bytes that were zero take the data; all others stay. */
  lemma MergedBytes(v: nat, data: seq<Byte>, lg: nat, shift: nat, k: nat)
    requires lg <= 3 && data != []
    requires shift <= k < shift + |data| ==> ByteOf(v, k) == 0
    ensures ByteOf(Merged(v, data, lg, shift), k)
      == if shift <= k < shift + |data| then data[k - shift] else ByteOf(v, k)
  {
    var cleared := AndNot(v, Mask(lg, shift));
    AndNotBytes(v, Mask(lg, shift), k);
    MaskBytes(lg, shift, k);
    AndNotZero(ByteOf(v, k));
    OrBytes(cleared, Shifted(LittleEndian(data), shift), k);
    ShiftedBytes(LittleEndian(data), shift, k);
    if k >= shift {
      LittleEndianBytes(data, k - shift);
    }
  }

  // ---- segments ----

  ghost predicate Vacant(m: Words, lg: nat, base: nat, size: nat)
  {
    forall a :: base <= a < base + size ==> EmptyAt(m, lg, a)
  }

  predicate EmptyAt(m: Words, lg: nat, a: nat) { At(m, lg, a) == 0 }

  /** In `m'` the bytes of `d` are at `base`, and the others are as in `m`. */
  ghost predicate Puts(m: Words, m': Words, lg: nat, base: nat, d: seq<Byte>)
  {
    forall a: nat :: PutAt(m, m', lg, base, d, a)
  }

  predicate PutAt(m: Words, m': Words, lg: nat, base: nat, d: seq<Byte>, a: nat)
  {
    At(m', lg, a) == if base <= a < base + |d| then d[a - base] else At(m, lg, a)
  }

  lemma PutsTwice(m: Words, m1: Words, m2: Words, lg: nat, base: nat, d1: seq<Byte>, d2: seq<Byte>)
    requires Puts(m, m1, lg, base, d1) && Puts(m1, m2, lg, base + |d1|, d2)
    ensures Puts(m, m2, lg, base, d1 + d2)
  {
    forall a: nat ensures PutAt(m, m2, lg, base, d1 + d2, a) {
      assert PutAt(m, m1, lg, base, d1, a);
      assert PutAt(m1, m2, lg, base + |d1|, d2, a);
    }
  }

  lemma VacantAfter(m: Words, m1: Words, lg: nat, base: nat, d1: seq<Byte>, rest: nat)
    requires Vacant(m, lg, base, |d1| + rest) && Puts(m, m1, lg, base, d1)
    ensures Vacant(m1, lg, base + |d1|, rest)
  {
    forall a | base + |d1| <= a < base + |d1| + rest ensures EmptyAt(m1, lg, a) {
      assert EmptyAt(m, lg, a);
      assert PutAt(m, m1, lg, base, d1, a);
    }
  }

  lemma VacantPart(m: Words, lg: nat, base: nat, size: nat, n: nat)
    requires Vacant(m, lg, base, size) && n <= size
    ensures Vacant(m, lg, base, n)
  {
  }

  lemma AddWordPuts(m: Words, base: nat, data: seq<Byte>, lg: nat)
    requires lg <= 3 && data != [] && Vacant(m, lg, base, |data|)
    ensures Puts(m, AddWord(m, base, data, lg), lg, base, data[..Fitting(base, |data|, lg)])
  {
    var at, d := Align(base, lg), data[..Fitting(base, |data|, lg)];
    Aligned(base, lg);
    VacantPart(m, lg, base, |data|, |d|);
    UpdatePuts(m, lg, at, base, d);
  }

  lemma UpdatePuts(m: Words, lg: nat, at: nat, base: nat, d: seq<Byte>)
    requires lg <= 3 && d != [] && Vacant(m, lg, base, |d|)
    requires at == Align(base, lg) <= base && base + |d| <= at + Width(lg)
    ensures Puts(m, m[at := Merged(Get(m, at), d, lg, base - at)], lg, base, d)
  {
    BlankWord(m, lg, at, base, |d|);
    MergesInto(m, lg, at, base, d, Get(m, at), Merged(Get(m, at), d, lg, base - at));
  }

  lemma MergesInto(m: Words, lg: nat, at: nat, base: nat, d: seq<Byte>, v: nat, w: nat)
    requires lg <= 3 && d != [] && at == Align(base, lg) <= base && base + |d| <= at + Width(lg)
    requires v == Get(m, at) && w == Merged(v, d, lg, base - at) && Blank(v, base - at, |d|)
    ensures Puts(m, m[at := w], lg, base, d)
  {
    MergesAll(v, d, lg, base - at);
    UpdateAll(m, w, lg, at, base, d);
  }

  /** Bytes `s` to `s + n` of a word are zero. */
  ghost predicate Blank(v: nat, s: nat, n: nat)
  {
    forall k :: s <= k < s + n ==> ByteOf(v, k) == 0
  }

  lemma BlankWord(m: Words, lg: nat, at: nat, base: nat, n: nat)
    requires Vacant(m, lg, base, n) && at == Align(base, lg) <= base && base + n <= at + Width(lg)
    ensures Blank(Get(m, at), base - at, n)
  {
    forall k | base - at <= k < base - at + n ensures ByteOf(Get(m, at), k) == 0 {
      SharesWord(base, at + k, lg);
      assert EmptyAt(m, lg, at + k);
    }
  }

  /** `w` is `v` with the bytes of `d` from byte `s` on. */
  ghost predicate Merges(v: nat, w: nat, d: seq<Byte>, s: nat)
  {
    forall k: nat :: ByteOf(w, k) == if s <= k < s + |d| then d[k - s] else ByteOf(v, k)
  }

  lemma MergesAll(v: nat, d: seq<Byte>, lg: nat, s: nat)
    requires lg <= 3 && d != [] && Blank(v, s, |d|)
    ensures Merges(v, Merged(v, d, lg, s), d, s)
  {
    forall k: nat ensures ByteOf(Merged(v, d, lg, s), k) == if s <= k < s + |d| then d[k - s] else ByteOf(v, k) {
      MergedBytes(v, d, lg, s, k);
    }
  }

  lemma UpdateAll(m: Words, w: nat, lg: nat, at: nat, base: nat, d: seq<Byte>)
    requires at == Align(base, lg) <= base && base + |d| <= at + Width(lg)
    requires Merges(Get(m, at), w, d, base - at)
    ensures Puts(m, m[at := w], lg, base, d)
  {
    var m' := m[at := w];
    forall a: nat ensures PutAt(m, m', lg, base, d, a) {
      Aligned(a, lg);
      SharesWord(base, a, lg);
      UpdateAt(m, w, lg, at, base, d, a);
    }
  }

  lemma UpdateAt(m: Words, v: nat, lg: nat, at: nat, base: nat, d: seq<Byte>, a: nat)
    requires Align(a, lg) != at ==> !(base <= a < base + |d|)
    requires at == Align(a, lg) ==> at <= a
    requires at == Align(a, lg) ==>
      ByteOf(v, a - at) == if base <= a < base + |d| then d[a - base] else ByteOf(Get(m, at), a - at)
    ensures PutAt(m, m[at := v], lg, base, d, a)
  {
  }

  /** Adding a segment where there was nothing puts its bytes there, and changes nothing else. */
  lemma {:induction false} AddPuts(m: Words, base: nat, data: seq<Byte>, lg: nat, m': Words)
    requires lg <= 3 && Vacant(m, lg, base, |data|) && m' == Add(m, base, data, lg)
    ensures Puts(m, m', lg, base, data)
    decreases |data|
  {
    if data == [] {
      forall a: nat ensures PutAt(m, m', lg, base, data, a) {
      }
    } else {
      var n := Fitting(base, |data|, lg);
      var m1, d, z := AddWord(m, base, data, lg), data[..n], data[n..];
      AddWordPuts(m, base, data, lg);
      VacantAfter(m, m1, lg, base, d, |z|);
      AddPuts(m1, base + n, z, lg, m');
      PutsAll(m, m1, m', lg, base, d, z, data);
    }
  }

  lemma PutsAll(m: Words, m1: Words, m2: Words, lg: nat, base: nat, d: seq<Byte>, z: seq<Byte>, all: seq<Byte>)
    requires Puts(m, m1, lg, base, d) && Puts(m1, m2, lg, base + |d|, z) && all == d + z
    ensures Puts(m, m2, lg, base, all)
  {
    PutsTwice(m, m1, m2, lg, base, d, z);
  }

  lemma AddTwice(m: Words, m2: Words, lg: nat, base: nat, d: seq<Byte>, next: nat, z: seq<Byte>, all: seq<Byte>)
    requires lg <= 3 && Vacant(m, lg, base, |all|) && next == base + |d| && all == d + z
    requires m2 == Add(Add(m, base, d, lg), next, z, lg)
    ensures Puts(m, m2, lg, base, all)
  {
    var m1 := Add(m, base, d, lg);
    VacantPart(m, lg, base, |all|, |d|);
    AddPuts(m, base, d, lg, m1);
    AppendPuts(m, m1, m2, lg, base, d, next, z, all);
  }

  lemma AppendPuts(m: Words, m1: Words, m2: Words, lg: nat, base: nat, d: seq<Byte>, next: nat, z: seq<Byte>,
                   all: seq<Byte>)
    requires lg <= 3 && Vacant(m, lg, base, |all|) && Puts(m, m1, lg, base, d)
    requires next == base + |d| && m2 == Add(m1, next, z, lg) && all == d + z
    ensures Puts(m, m2, lg, base, all)
  {
    VacantAfter(m, m1, lg, base, d, |z|);
    AddPuts(m1, next, z, lg, m2);
    PutsAll(m, m1, m2, lg, base, d, z, all);
  }

  /** A loadable segment: its bytes, and the zeros that follow up to its size in memory. */
  datatype Segment = Segment(addr: nat, data: seq<Byte>, memSize: nat)

  function Size(s: Segment): nat { if |s.data| > s.memSize then |s.data| else s.memSize }

  predicate Covers(s: Segment, a: nat) { s.addr <= a < s.addr + Size(s) }

  predicate Disjoint(s: Segment, t: Segment) { s.addr + Size(s) <= t.addr || t.addr + Size(t) <= s.addr }

  ghost predicate AllDisjoint(ss: seq<Segment>)
  {
    forall i, j :: 0 <= i < j < |ss| ==> Disjoint(ss[i], ss[j])
  }

  /** Where areas are given, only segments whose bytes lie in one of them are loaded. */
  predicate Wanted(s: Segment, areas: seq<(nat, nat)>)
  {
    areas == [] || exists k :: 0 <= k < |areas| && InArea(s, areas[k])
  }

  predicate InArea(s: Segment, area: (nat, nat)) { s.addr >= area.0 && s.addr + |s.data| <= area.1 }

  function AddSegment(m: Words, s: Segment, lg: nat): Words
  {
    var m1 := Add(m, s.addr, s.data, lg);
    if |s.data| < s.memSize then Add(m1, s.addr + |s.data|, Zeros(s.memSize - |s.data|), lg) else m1
  }

  function Parse(ss: seq<Segment>, areas: seq<(nat, nat)>, lg: nat): Words
  {
    if ss == [] then map[]
    else
      var m := Parse(ss[..|ss| - 1], areas, lg);
      var s := ss[|ss| - 1];
      if Wanted(s, areas) then AddSegment(m, s, lg) else m
  }

  /** The image: a loaded segment's byte, or 0. */
  function Image(ss: seq<Segment>, areas: seq<(nat, nat)>, a: nat): Byte
  {
    if ss == [] then 0
    else
      var s := ss[|ss| - 1];
      if Wanted(s, areas) && s.addr <= a < s.addr + |s.data| then s.data[a - s.addr]
      else Image(ss[..|ss| - 1], areas, a)
  }

  /** What a segment puts into memory: its bytes and the zeros after them. */
  function Loaded(s: Segment): (d: seq<Byte>)
    ensures |d| == Size(s)
  {
    if |s.data| < s.memSize then s.data + Zeros(s.memSize - |s.data|) else s.data
  }

  lemma AddSegmentPuts(m: Words, s: Segment, lg: nat, m2: Words, d: seq<Byte>)
    requires lg <= 3 && Vacant(m, lg, s.addr, Size(s)) && m2 == AddSegment(m, s, lg) && d == Loaded(s)
    ensures Puts(m, m2, lg, s.addr, d)
  {
    if |s.data| < s.memSize {
      AddTwice(m, m2, lg, s.addr, s.data, s.addr + |s.data|, Zeros(s.memSize - |s.data|), d);
    } else {
      AddPuts(m, s.addr, s.data, lg, m2);
    }
  }

  lemma AddSegmentBytes(m: Words, s: Segment, lg: nat, a: nat)
    requires lg <= 3 && Vacant(m, lg, s.addr, Size(s))
    ensures At(AddSegment(m, s, lg), lg, a)
      == if s.addr <= a < s.addr + |s.data| then s.data[a - s.addr] else At(m, lg, a)
  {
    AddSegmentPuts(m, s, lg, AddSegment(m, s, lg), Loaded(s));
    PutsLoaded(m, AddSegment(m, s, lg), s, lg, a);
  }

  lemma PutsLoaded(m: Words, m': Words, s: Segment, lg: nat, a: nat)
    requires Vacant(m, lg, s.addr, Size(s)) && Puts(m, m', lg, s.addr, Loaded(s))
    ensures At(m', lg, a) == if s.addr <= a < s.addr + |s.data| then s.data[a - s.addr] else At(m, lg, a)
  {
    assert PutAt(m, m', lg, s.addr, Loaded(s), a);
    assert Covers(s, a) ==> EmptyAt(m, lg, a);
  }

  method IsWanted(s: Segment, areas: seq<(nat, nat)>) returns (load: bool)
    ensures load <==> Wanted(s, areas)
  {
    load := true;
    if |areas| != 0 {
      load := false;
      var k := 0;
      while k < |areas| && !load
        invariant 0 <= k <= |areas|
        invariant load <==> exists j :: 0 <= j < k && InArea(s, areas[j])
      {
        load := s.addr >= areas[k].0 && s.addr + |s.data| <= areas[k].1;
        k := k + 1;
      }
    }
  }

  method ParseBinaries(stim: Stim, ss: seq<Segment>, areas: seq<(nat, nat)>, lg: nat)
    modifies stim
    ensures stim.mem == Parse(ss, areas, lg)
  {
    stim.mem := map[];
    var i := 0;
    while i < |ss|
      invariant 0 <= i <= |ss| && stim.mem == Parse(ss[..i], areas, lg)
    {
      assert ss[..i + 1][..i] == ss[..i];
      var s := ss[i];
      var load := IsWanted(s, areas);
      if load {
        stim.AddMem(s.addr, s.data, lg);
        if |s.data| < s.memSize {
          stim.AddMem(s.addr + |s.data|, Zeros(s.memSize - |s.data|), lg);
        }
      }
      i := i + 1;
    }
    assert ss[..i] == ss;
  }

  /** For every list of disjoint segments, and words of 1, 2, 4 or 8 bytes, the map holds the image. */
  lemma {:induction false} ParseIsImage(ss: seq<Segment>, areas: seq<(nat, nat)>, lg: nat, a: nat)
    requires lg <= 3 && AllDisjoint(ss)
    ensures At(Parse(ss, areas, lg), lg, a) == Image(ss, areas, a)
    decreases |ss|
  {
    if ss == [] {
      Aligned(a, lg);
      ZeroBytes(a - Align(a, lg));
    } else {
      var n := |ss| - 1;
      ParseIsImage(ss[..n], areas, lg, a);
      if Wanted(ss[n], areas) {
        ParseVacant(ss, areas, lg);
        AddSegmentBytes(Parse(ss[..n], areas, lg), ss[n], lg, a);
      }
    }
  }

  lemma ParseVacant(ss: seq<Segment>, areas: seq<(nat, nat)>, lg: nat)
    requires lg <= 3 && AllDisjoint(ss) && ss != []
    ensures Vacant(Parse(ss[..|ss| - 1], areas, lg), lg, ss[|ss| - 1].addr, Size(ss[|ss| - 1]))
    decreases |ss|, 0
  {
    var n := |ss| - 1;
    forall x | ss[n].addr <= x < ss[n].addr + Size(ss[n]) ensures EmptyAt(Parse(ss[..n], areas, lg), lg, x) {
      ParseIsImage(ss[..n], areas, lg, x);
      NoOverlap(ss, n, areas, x);
    }
  }

  lemma {:induction false} NoOverlap(ss: seq<Segment>, n: nat, areas: seq<(nat, nat)>, x: nat)
    requires n < |ss| && Covers(ss[|ss| - 1], x) && AllDisjoint(ss)
    ensures Image(ss[..n], areas, x) == 0
    decreases n
  {
    if n > 0 {
      assert ss[..n][..n - 1] == ss[..n - 1];
      assert Disjoint(ss[n - 1], ss[|ss| - 1]);
      NoOverlap(ss, n - 1, areas, x);
    }
  }

  // ---- wider words ----

  /** With 16-byte words and wider, the mask clears a byte the new one does not replace. */
  lemma WideMaskClears(lg: nat)
    requires lg >= 4
    ensures ByteOf(Mask(lg, 0), 1) == 0xFF
  {
    var w := Width(lg);
    WideWidth(lg);
    PowSplit(w - 16, 16);
    assert Pow2(16) == 0x1_0000 by { assert Pow2(4) == 16; assert Pow2(10) == 0x400; }
    Mersenne(Pow2(w), Pow2(w - 16));
    assert Shifted(Pow2(w) - 1, 0) == Pow2(w) - 1;
    ShiftedBytes(Pow2(w) - 1, 0, 1);
    assert ByteOf(Pow2(w) - 1, 1) == ByteOf((Pow2(w) - 1) / 256, 0);
  }

  lemma {:induction false} WideWidth(lg: nat)
    requires lg >= 4
    ensures Width(lg) >= 16
    decreases lg
  {
    if lg > 4 {
      WideWidth(lg - 1);
    } else {
      assert Pow2(4) == 16;
    }
  }

  lemma Mersenne(p: nat, q: nat)
    requires p == q * 0x1_0000 && q > 0
    ensures (p - 1) / 256 % 256 == 0xFF
  {
    assert p - 1 == 256 * (256 * q - 1) + 255;
    assert (p - 1) / 256 == 256 * q - 1;
    assert 256 * q - 1 == 256 * (q - 1) + 255;
  }

  /** Then even disjoint segments are damaged: byte 1 is lost when byte 0 is added after it. */
  lemma WideWordsLoseBytes(lg: nat)
    requires lg >= 4
    ensures var ss := [Segment(1, [7], 1), Segment(0, [9], 1)];
      AllDisjoint(ss) && Image(ss, [], 1) == 7 && At(Parse(ss, [], lg), lg, 1) == 0
  {
    var s, t := Segment(1, [7], 1), Segment(0, [9], 1);
    var ss := [s, t];
    assert ss[..1] == [s] && [s][..0] == [];
    WideWidth(lg);
    FirstWord(lg, 0);
    FirstWord(lg, 1);
    var m := AddWord(map[], 1, [7], lg);
    AddOne(map[], 1, 7, lg);
    AddOne(m, 0, 9, lg);
    var v := m[0];
    LosesByteOne(v, 9, lg);
    assert Parse([s], [], lg) == AddSegment(map[], s, lg);
    assert Parse(ss, [], lg) == AddSegment(m, t, lg);
  }

  lemma FirstWord(lg: nat, a: nat)
    requires lg >= 4 && a < 16
    ensures Align(a, lg) == 0
  {
    WideWidth(lg);
    FirstWordIsZero(a, lg);
  }

  lemma AddOne(m: Words, a: nat, b: Byte, lg: nat)
    requires lg >= 4 && a < 16
    ensures Add(m, a, [b], lg) == m[0 := Merged(Get(m, 0), [b], lg, a)] == AddWord(m, a, [b], lg)
  {
    FirstWord(lg, a);
    WideWidth(lg);
    assert Fitting(a, 1, lg) == 1;
    assert [b][..1] == [b] && [b][1..] == [];
    assert Add(AddWord(m, a, [b], lg), a + 1, [], lg) == AddWord(m, a, [b], lg);
  }

  lemma LosesByteOne(v: nat, b: Byte, lg: nat)
    requires lg >= 4
    ensures ByteOf(Merged(v, [b], lg, 0), 1) == 0
  {
    var cleared := AndNot(v, Mask(lg, 0));
    WideMaskClears(lg);
    AndNotBytes(v, Mask(lg, 0), 1);
    ClearedByte(ByteOf(v, 1));
    OrBytes(cleared, Shifted(LittleEndian([b]), 0), 1);
    ShiftedBytes(LittleEndian([b]), 0, 1);
    LittleEndianBytes([b], 1);
  }

  lemma ClearedByte(b: Byte)
    ensures AndNot(b, 0xFF) == 0
  {
    assert Width(8) == 256 by { assert Pow2(4) == 16; }
    AlignClears(b, 8, 256);
    FirstWordIsZero(b, 8);
  }

  /** Word widths for which every list of disjoint segments comes out right. */
  lemma WidthsThatWork(lg: nat)
    ensures (forall ss, areas, a :: AllDisjoint(ss) ==> At(Parse(ss, areas, lg), lg, a) == Image(ss, areas, a))
      <==> lg <= 3
  {
    if lg <= 3 {
      forall ss, areas, a | AllDisjoint(ss) ensures At(Parse(ss, areas, lg), lg, a) == Image(ss, areas, a) {
        ParseIsImage(ss, areas, lg, a);
      }
    } else {
      WideWordsLoseBytes(lg);
      var ss := [Segment(1, [7], 1), Segment(0, [9], 1)];
      assert AllDisjoint(ss) && At(Parse(ss, [], lg), lg, 1) != Image(ss, [], 1);
    }
  }
}
