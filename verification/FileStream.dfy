/** An opened file: reading, seeking, scanning integers; and the printer whose output it reads back. */
module FileStream {
  import opened Machine32
  import opened Decimal

  // ---- scanning ----

  predicate IsSpace(c: Byte) { c == 32 || c == 9 || c == 10 || c == 13 }

  function SkipSpace(d: seq<Byte>, p: nat): (q: nat)
    requires p <= |d|
    ensures p <= q <= |d|
    decreases |d| - p
  {
    if p < |d| && IsSpace(d[p]) then SkipSpace(d, p + 1) else p
  }

  function EndOfDigits(d: seq<Byte>, p: nat): (q: nat)
    requires p <= |d|
    ensures p <= q <= |d|
    decreases |d| - p
  {
    if p < |d| && IsDigit(d[p]) then EndOfDigits(d, p + 1) else p
  }

  /** The number the digits from `p` on add to `acc`, in int arithmetic. */
  function Accumulate(d: seq<Byte>, p: nat, acc: int): (v: int)
    requires p <= |d|
    decreases |d| - p
  {
    if p < |d| && IsDigit(d[p]) then Accumulate(d, p + 1, S32(acc * 10 + (d[p] - ZERO) as int)) else acc
  }

  /** The result of one scan: -1 at the end of the file, 0 where no number stands, 1 and the number. */
  datatype Scanned = Scanned(status: int, value: int, pos: nat)

  function ScanInt(d: seq<Byte>, p: nat): (r: Scanned)
    requires p <= |d|
    ensures p <= r.pos <= |d|
  {
    var q := SkipSpace(d, p);
    if q >= |d| then Scanned(-1, 0, q)
    else
      var neg := d[q] == MINUS;
      var s := if neg then q + 1 else q;
      if s >= |d| || !IsDigit(d[s]) then Scanned(0, 0, s)
      else Scanned(1, S32(if neg then -Accumulate(d, s, 0) else Accumulate(d, s, 0)), EndOfDigits(d, s))
  }

  // ---- the open file ----

  lemma PrefixSlice(d: seq<Byte>, size: nat, p: nat, q: nat)
    requires p <= q <= size <= |d|
    ensures d[..size][p..q] == d[p..q]
  {
  }

  class Stream {
    var data: array<Byte>
    var size: nat
    var pos: nat

    ghost predicate Valid()
      reads this
    {
      pos <= size < data.Length && IsU32(size)
    }

    constructor (buf: array<Byte>, n: nat)
      requires n < buf.Length && IsU32(n)
      ensures Valid() && data == buf && size == n && pos == 0
    {
      data, size, pos := buf, n, 0;
    }

    ghost function Contents(): seq<Byte>
      requires Valid()
      reads this, data
    {
      data[..size]
    }

    /** Copies what is asked for, as far as the file goes, and answers the number of whole items. The
        byte count is taken modulo 2^32. */
    method Read(buf: array<Byte>, sz: nat, count: nat) returns (items: nat)
      requires Valid() && buf != data && sz > 0
      requires Min(U32(sz * count), size - pos) <= buf.Length
      modifies `pos, buf
      ensures Valid() && data == old(data) && size == old(size) && data[..] == old(data[..])
      ensures var n := Min(U32(sz * count), size - old(pos));
        pos == old(pos) + n && items == n / sz
        && buf[..n] == Got(Contents(), old(pos), sz, count) && buf[n..] == old(buf[n..])
    {
      var want := Wanted(sz, count);
      Take(buf, want);
      items := want / sz;
    }

    /** How many bytes a read takes: the product, in 32 bits, or what is left. */
    method Wanted(sz: nat, count: nat) returns (want: nat)
      requires Valid()
      ensures want == Min(U32(sz * count), size - pos)
    {
      want := U32(sz * count);
      var avail := size - pos;
      if want > avail {
        want := avail;
      }
    }

    /** Copies the next `n` bytes out and moves past them. */
    method Take(buf: array<Byte>, n: nat)
      requires Valid() && buf != data && n <= size - pos && n <= buf.Length
      modifies `pos, buf
      ensures Valid() && data == old(data) && size == old(size) && data[..] == old(data[..])
      ensures pos == old(pos) + n && buf[..n] == Contents()[old(pos)..pos] && buf[n..] == old(buf[n..])
    {
      Copy(buf, n);
      PrefixSlice(data[..], size, pos, pos + n);
      assert data[..size] == data[..][..size] && data[pos..pos + n] == data[..][pos..pos + n];
      pos := pos + n;
    }

    method Copy(buf: array<Byte>, n: nat)
      requires Valid() && buf != data && n <= size - pos && n <= buf.Length
      modifies buf
      ensures buf[..n] == data[pos..pos + n] && buf[n..] == old(buf[n..])
    {
      var i := 0;
      while i < n
        invariant 0 <= i <= n && buf[..i] == data[pos..pos + i] && buf[n..] == old(buf[n..])
      {
        buf[i] := data[pos + i];
        i := i + 1;
      }
    }

    /** Moves to `offset` from the start (0), the position (1) or the end (2), but never outside the file. */
    method Seek(offset: int, whence: int) returns (r: int)
      requires Valid()
      modifies `pos
      ensures Valid() && (r == 0 <==> 0 <= whence <= 2) && (r == 0 || r == -1)
      ensures r == -1 ==> pos == old(pos)
      ensures r == 0 ==>
        pos == Clamp((if whence == 0 then 0 else if whence == 1 then old(pos) else size) + offset, size)
    {
      var base := 0;
      if whence == 0 {
      } else if whence == 1 {
        base := pos;
      } else if whence == 2 {
        base := size;
      } else {
        return -1;
      }
      var to := base + offset;
      if to < 0 {
        to := 0;
      }
      if to > size {
        to := size;
      }
      pos := to;
      return 0;
    }

    method SkipBlanks()
      requires Valid()
      modifies `pos
      ensures Valid() && pos == SkipSpace(Contents(), old(pos))
    {
      while pos < size && IsSpace(data[pos])
        invariant Valid() && SkipSpace(data[..size], old(pos)) == SkipSpace(data[..size], pos)
        decreases size - pos
      {
        pos := pos + 1;
      }
    }

    method ScanDigits() returns (val: int)
      requires Valid()
      modifies `pos
      ensures Valid() && pos == EndOfDigits(Contents(), old(pos)) && val == Accumulate(Contents(), old(pos), 0)
    {
      val := 0;
      while pos < size && IsDigit(data[pos])
        invariant Valid() && EndOfDigits(data[..size], old(pos)) == EndOfDigits(data[..size], pos)
        invariant Accumulate(data[..size], old(pos), 0) == Accumulate(data[..size], pos, val)
        decreases size - pos
      {
        val := S32(val * 10 + (data[pos] - ZERO) as int);
        pos := pos + 1;
      }
    }

    /** Scans one integer (the "%d" format). */
    method Scan() returns (status: int, value: int)
      requires Valid()
      modifies `pos
      ensures Valid() && Scanned(status, value, pos) == ScanInt(Contents(), old(pos))
    {
      value := 0;
      if pos >= size {
        return -1, 0;
      }
      SkipBlanks();
      if pos >= size {
        return -1, 0;
      }
      var sign := 1;
      if data[pos] == MINUS {
        sign := -1;
        pos := pos + 1;
      }
      if pos >= size || !IsDigit(data[pos]) {
        return 0, 0;
      }
      var val := ScanDigits();
      return 1, S32(sign * val);
    }
  }

  function Clamp(x: int, hi: nat): (r: nat)
    ensures 0 <= r <= hi && (0 <= x <= hi ==> r == x)
  {
    if x < 0 then 0 else if x > hi then hi else x
  }

  // ---- reading in pieces ----

  /** What one read takes from `d` at position `p`: the byte count is a 32-bit product. */
  function Got(d: seq<Byte>, p: nat, sz: nat, count: nat): (b: seq<Byte>)
    requires p <= |d|
    ensures |b| == Min(U32(sz * count), |d| - p)
  {
    d[p..p + Min(U32(sz * count), |d| - p)]
  }

  /** Two reads, one after the other, take what one read of all the items would, exactly when the two byte counts
      add up to less than 2^32, or the one read comes to the end of the file anyway. */
  lemma PiecesJoin(d: seq<Byte>, p: nat, sz: nat, c1: nat, c2: nat)
    requires p <= |d|
    ensures var x := Got(d, p, sz, c1);
      x + Got(d, p + |x|, sz, c2) == Got(d, p, sz, c1 + c2)
      <==> U32(sz * c1) + U32(sz * c2) < TWO32 || |d| - p <= U32(sz * (c1 + c2))
  {
    var a, b := U32(sz * c1), U32(sz * c2);
    Distributes(sz, c1, c2);
    SumOfWords(sz * c1, sz * c2);
    var x := Got(d, p, sz, c1);
    var y := Got(d, p + |x|, sz, c2);
    JoinedSlice(d, p, |x|, |y|);
    SameEnd(d, p, |x| + |y|, Min(U32(sz * (c1 + c2)), |d| - p));
  }

  lemma Distributes(sz: nat, c1: nat, c2: nat)
    ensures sz * (c1 + c2) == sz * c1 + sz * c2
  {
  }

  lemma SumOfWords(a: nat, b: nat)
    ensures U32(a + b) == if U32(a) + U32(b) < TWO32 then U32(a) + U32(b) else U32(a) + U32(b) - TWO32
  {
  }

  lemma JoinedSlice(d: seq<Byte>, p: nat, n: nat, k: nat)
    requires p + n + k <= |d|
    ensures d[p..p + n] + d[p + n..p + n + k] == d[p..p + (n + k)]
  {
  }

  lemma SameEnd(d: seq<Byte>, p: nat, n: nat, k: nat)
    requires p + n <= |d| && p + k <= |d|
    ensures d[p..p + n] == d[p..p + k] <==> n == k
  {
    assert |d[p..p + n]| == n && |d[p..p + k]| == k;
  }

  /** Otherwise one read may take nothing where two take the file: 2^32 items of one byte. */
  lemma OneReadTakesNothing(d: seq<Byte>)
    ensures Got(d, 0, 1, 0x1_0000_0000) == [] && Got(d, 0, 1, 0x8000_0000) == d[..Min(0x8000_0000, |d|)]
  {
  }

  /** Two reads of one file. */
  method ReadTwice(f: Stream, a: array<Byte>, b: array<Byte>, sz: nat, c1: nat, c2: nat)
    requires f.Valid() && a != f.data && b != f.data && a != b && sz > 0
    requires Min(U32(sz * c1), f.size - f.pos) <= a.Length && Min(U32(sz * c2), f.size - f.pos) <= b.Length
    modifies f`pos, a, b
    ensures var d, p := old(f.Contents()), old(f.pos);
      var x := Got(d, p, sz, c1);
      var y := Got(d, p + |x|, sz, c2);
      a[..|x|] == x && b[..|y|] == y && f.pos == p + |x| + |y|
      && (x + y == Got(d, p, sz, c1 + c2)
          <==> U32(sz * c1) + U32(sz * c2) < TWO32 || |d| - p <= U32(sz * (c1 + c2)))
  {
    ghost var d, p := f.Contents(), f.pos;
    PiecesJoin(d, p, sz, c1, c2);
    var _ := f.Read(a, sz, c1);
    ghost var got := a[..];
    assert a[..f.pos - p] == got[..f.pos - p];
    var _ := f.Read(b, sz, c2);
    assert a[..] == got;
  }

  // ---- printing into a buffer ----

  function Reversed(s: seq<Byte>): (r: seq<Byte>)
    ensures |r| == |s|
  {
    if s == [] then [] else [s[|s| - 1]] + Reversed(s[..|s| - 1])
  }

  /** The "%d" conversion: the digits, last first, in a 12-byte scratch buffer, then copied out. */
  method SprintInt(buf: array<Byte>, at: nat, v: int) returns (end: nat)
    requires -TWO31 < v < TWO31 && at + 11 <= buf.Length
    modifies buf
    ensures end == at + |IntText(v)| <= buf.Length && buf[at..end] == IntText(v)
    ensures buf[..at] == old(buf[..at]) && buf[end..] == old(buf[end..])
  {
    var start, rest := at, v;
    if v < 0 {
      buf[at] := MINUS;
      start, rest := at + 1, -v;
    }
    var tmp, n := ReverseDigits(rest);
    ghost var sign := buf[at..start];
    end := CopyReversed(tmp, n, buf, start);
    assert buf[at..start] == buf[..start][at..] == sign;
    assert buf[at..end] == buf[at..start] + buf[start..end];
    assert buf[..at] == buf[..start][..at];
  }

  method CopyReversed(tmp: array<Byte>, n: nat, buf: array<Byte>, start: nat) returns (end: nat)
    requires tmp != buf && n <= tmp.Length && start + n <= buf.Length
    modifies buf
    ensures end == start + n && buf[start..end] == Reversed(tmp[..n])
    ensures buf[..start] == old(buf[..start]) && buf[end..] == old(buf[end..])
  {
    end := start;
    var k := n;
    ghost var t, was := tmp[..n], buf[..];
    assert t[..n] == t && buf[..][start..end] == [];
    while k > 0
      invariant 0 <= k <= n && end == start + (n - k) && tmp[..n] == t
      invariant Framed(buf[..], was, start, end) && Emitted(buf[..], start, end, t, k)
    {
      ghost var b := buf[..];
      EmitNext(b, start, end, t, k);
      FrameNext(b, was, start, end, t[k - 1]);
      k := k - 1;
      buf[end] := tmp[k];
      assert buf[..] == b[end := t[k]];
      end := end + 1;
    }
    assert buf[..][start..end] == buf[start..end] && buf[..][..start] == buf[..start] && buf[..][end..] == buf[end..];
    assert was[..start] == old(buf[..start]) && was[end..] == old(buf[..])[end..];
  }

  /** Nothing outside `start` to `end` has changed. */
  predicate Framed(b: seq<Byte>, was: seq<Byte>, start: nat, end: nat)
  {
    |b| == |was| && start <= end <= |b| && b[..start] == was[..start] && b[end..] == was[end..]
  }

  lemma FrameNext(b: seq<Byte>, was: seq<Byte>, start: nat, end: nat, c: Byte)
    requires Framed(b, was, start, end) && end < |b|
    ensures Framed(b[end := c], was, start, end + 1)
  {
    assert b[end := c][end + 1..] == b[end..][1..] && was[end + 1..] == was[end..][1..];
    assert b[end := c][..start] == b[..start];
  }

  /** The digits above `k` have been written, last first. */
  ghost predicate Emitted(b: seq<Byte>, start: nat, end: nat, t: seq<Byte>, k: nat)
  {
    start <= end <= |b| && k <= |t| && b[start..end] + Reversed(t[..k]) == Reversed(t)
  }

  lemma EmitNext(b: seq<Byte>, start: nat, end: nat, t: seq<Byte>, k: nat)
    requires k > 0 && end < |b| && Emitted(b, start, end, t, k)
    ensures Emitted(b[end := t[k - 1]], start, end + 1, t, k - 1)
  {
    var b' := b[end := t[k - 1]];
    assert t[..k][..k - 1] == t[..k - 1];
    assert b'[start..end + 1] == b[start..end] + [t[k - 1]];
  }

  method ReverseDigits(u: nat) returns (tmp: array<Byte>, n: nat)
    requires u < TWO31
    ensures fresh(tmp) && tmp.Length == 12 && n <= 10 && Reversed(tmp[..n]) == Dec(u)
  {
    WordDigits(u);
    tmp := new Byte[12];
    if u == 0 {
      tmp[0] := ZERO;
      n := 1;
      assert tmp[..n] == [ZERO];
      return;
    }
    n := 0;
    var rest: nat := u;
    while rest > 0
      invariant 0 <= n <= |Dec(u)|
      invariant rest > 0 ==> Dec(u) == Dec(rest) + Reversed(tmp[..n])
      invariant rest == 0 ==> Dec(u) == Reversed(tmp[..n])
      decreases rest
    {
      ghost var done := tmp[..n];
      tmp[n] := ZERO + rest % 10;
      n := n + 1;
      assert tmp[..n][..n - 1] == done;
      rest := rest / 10;
    }
  }

  // ---- reading back what was printed ----

  predicate Blank(s: seq<Byte>)
  {
    forall k :: 0 <= k < |s| ==> s[k] == 9 || s[k] == 10 || s[k] == 13 || s[k] == 32
  }

  /** Integers in decimal, each followed by a separator. */
  function Written(vs: seq<int>, seps: seq<seq<Byte>>): seq<Byte>
    requires |vs| == |seps|
  {
    if vs == [] then [] else IntText(vs[0]) + seps[0] + Written(vs[1..], seps[1..])
  }

  /** Blank separators, of which only the last may be empty. */
  predicate Separates(seps: seq<seq<Byte>>)
  {
    forall k :: 0 <= k < |seps| ==> Blank(seps[k]) && (k < |seps| - 1 ==> seps[k] != [])
  }

  predicate Printable(vs: seq<int>) { forall k :: 0 <= k < |vs| ==> -TWO31 < vs[k] < TWO31 }

  /** Scanning again and again: the numbers read, and the status that ended it. */
  function ScanAll(d: seq<Byte>, p: nat): (r: (seq<int>, int))
    requires p <= |d|
    decreases |d| - p
  {
    var s := ScanInt(d, p);
    if s.status != 1 || s.pos <= p then ([], s.status)
    else
      var rest := ScanAll(d, s.pos);
      ([s.value] + rest.0, rest.1)
  }

  lemma {:induction false} SkipsBlank(d: seq<Byte>, p: nat, b: seq<Byte>)
    requires p + |b| <= |d| && d[p..p + |b|] == b && Blank(b)
    ensures SkipSpace(d, p) == SkipSpace(d, p + |b|)
    decreases |b|
  {
    if b != [] {
      assert d[p] == d[p..p + |b|][0] == b[0];
      assert d[p + 1..p + 1 + |b[1..]|] == b[1..];
      SkipsBlank(d, p + 1, b[1..]);
    }
  }

  /** Scanning the numeral of `n` accumulates `n`: no step wraps. */
  lemma {:induction false} ReadsNumeral(d: seq<Byte>, p: nat, n: nat)
    requires n < TWO31 && p + |Dec(n)| <= |d| && d[p..p + |Dec(n)|] == Dec(n)
    ensures var q := p + |Dec(n)|;
      Accumulate(d, p, 0) == Accumulate(d, q, n) && EndOfDigits(d, p) == EndOfDigits(d, q)
    decreases n
  {
    var k := |Dec(n)| - 1;
    NumeralAt(d, p, n, k, Dec(n));
    if n >= 10 {
      ReadsNumeral(d, p, n / 10);
    }
    OneDigit(d, p + k, n / 10, n);
  }

  lemma NumeralAt(d: seq<Byte>, p: nat, n: nat, k: nat, s: seq<Byte>)
    requires s == Dec(n) && k == |s| - 1 && p + |s| <= |d| && d[p..p + |s|] == s
    ensures d[p + k] == ZERO + n % 10 && (n < 10 ==> k == 0)
    ensures n >= 10 ==> k == |Dec(n / 10)| && d[p..p + k] == Dec(n / 10)
  {
    LastDigit(n, s);
    assert d[p + k] == d[p..p + |s|][k];
    assert d[p..p + k] == d[p..p + |s|][..k];
  }

  lemma LastDigit(n: nat, s: seq<Byte>)
    requires s == Dec(n)
    ensures s[|s| - 1] == ZERO + n % 10 && if n < 10 then |s| == 1 else s[..|s| - 1] == Dec(n / 10)
  {
  }

  lemma OneDigit(d: seq<Byte>, p: nat, acc: nat, n: nat)
    requires p < |d| && d[p] == ZERO + n % 10 && acc == n / 10 && n < TWO31
    ensures Accumulate(d, p, acc) == Accumulate(d, p + 1, n) && EndOfDigits(d, p) == EndOfDigits(d, p + 1)
  {
    assert acc * 10 + n % 10 == n && S32(n) == n;
  }

  lemma ReadsMagnitude(d: seq<Byte>, p: nat, n: nat)
    requires n < TWO31 && p + |Dec(n)| <= |d| && d[p..p + |Dec(n)|] == Dec(n)
    requires p + |Dec(n)| == |d| || !IsDigit(d[p + |Dec(n)|])
    ensures IsDigit(d[p]) && Accumulate(d, p, 0) == n && EndOfDigits(d, p) == p + |Dec(n)|
  {
    DecDenotes(n);
    assert d[p] == d[p..p + |Dec(n)|][0] == Dec(n)[0];
    ReadsNumeral(d, p, n);
  }

  /** What the scan makes of a sign, if any, and digits. */
  lemma ScansSigned(d: seq<Byte>, p: nat, q: nat, n: int)
    requires p < |d| && !IsSpace(d[p]) && q == (if d[p] == MINUS then p + 1 else p) < |d| && IsDigit(d[q])
    requires 0 <= n < TWO31 && Accumulate(d, q, 0) == n
    ensures SkipSpace(d, p) == p && ScanInt(d, p) == Scanned(1, if d[p] == MINUS then -n else n, EndOfDigits(d, q))
  {
    assert S32(n) == n && S32(-n) == -n;
  }

  /** One printed integer, up to something that is no digit, is scanned back. */
  lemma ReadsInt(d: seq<Byte>, p: nat, v: int)
    requires -TWO31 < v < TWO31 && p + |IntText(v)| <= |d| && d[p..p + |IntText(v)|] == IntText(v)
    requires p + |IntText(v)| == |d| || !IsDigit(d[p + |IntText(v)|])
    ensures SkipSpace(d, p) == p && ScanInt(d, p) == Scanned(1, v, p + |IntText(v)|)
  {
    if v < 0 {
      ReadsNegative(d, p, -v, Dec(-v));
    } else {
      ReadsMagnitude(d, p, v);
      ScansSigned(d, p, p, v);
    }
  }

  lemma ReadsNegative(d: seq<Byte>, p: nat, n: int, t: seq<Byte>)
    requires 0 < n < TWO31 && t == Dec(n) && p + 1 + |t| <= |d| && d[p..p + 1 + |t|] == [MINUS] + t
    requires p + 1 + |t| == |d| || !IsDigit(d[p + 1 + |t|])
    ensures SkipSpace(d, p) == p && ScanInt(d, p) == Scanned(1, -n, p + 1 + |t|)
  {
    assert d[p] == d[p..p + 1 + |t|][0] == MINUS;
    assert d[p + 1..p + 1 + |t|] == d[p..p + 1 + |t|][1..] == t;
    ReadsMagnitude(d, p + 1, n);
    ScansSigned(d, p, p + 1, n);
  }

  lemma ReadsAfterBlank(d: seq<Byte>, p: nat, b: seq<Byte>, v: int)
    requires p + |b| <= |d| && d[p..p + |b|] == b && Blank(b) && -TWO31 < v < TWO31
    requires var q, t := p + |b|, IntText(v);
      q + |t| <= |d| && d[q..q + |t|] == t && (q + |t| == |d| || !IsDigit(d[q + |t|]))
    ensures ScanInt(d, p) == Scanned(1, v, p + |b| + |IntText(v)|)
  {
    SkipsBlank(d, p, b);
    ReadsInt(d, p + |b|, v);
  }

  /** Any list of printable integers, written with blank separators, is read back whole, and then the
      scan reports the end of the file. */
  lemma PrintedIsReadBack(vs: seq<int>, seps: seq<seq<Byte>>)
    requires |vs| == |seps| && Printable(vs) && Separates(seps)
    ensures ScanAll(Written(vs, seps), 0) == (vs, -1)
  {
    ReadsText(Written(vs, seps), [], vs, seps);
  }

  lemma ReadsText(d: seq<Byte>, b: seq<Byte>, vs: seq<int>, seps: seq<seq<Byte>>)
    requires |vs| == |seps| && Printable(vs) && Separates(seps) && d == Written(vs, seps) && b == []
    ensures ScanAll(d, 0) == (vs, -1)
  {
    assert d[0..] == d == b + d;
    ReadsList(d, 0, b, vs, seps);
  }

  lemma {:induction false} ReadsList(d: seq<Byte>, p: nat, b: seq<Byte>, vs: seq<int>, seps: seq<seq<Byte>>)
    requires |vs| == |seps| && Printable(vs) && Separates(seps) && Blank(b)
    requires p <= |d| && d[p..] == b + Written(vs, seps)
    ensures ScanAll(d, p) == (vs, -1)
    decreases |vs|
  {
    if vs == [] {
      Splits(d, p, b, []);
      SkipsBlank(d, p, b);
    } else {
      TailsPrintable(vs, seps);
      var e := ReadsHead(d, p, b, vs, seps);
      ReadsList(d, e, seps[0], vs[1..], seps[1..]);
      ScanAllStep(d, p, vs, e);
    }
  }

  lemma ReadsHead(d: seq<Byte>, p: nat, b: seq<Byte>, vs: seq<int>, seps: seq<seq<Byte>>) returns (e: nat)
    requires |vs| == |seps| > 0 && -TWO31 < vs[0] < TWO31 && EndsNumber(seps) && Blank(b)
    requires p <= |d| && d[p..] == b + Written(vs, seps)
    ensures p < e <= |d| && ScanInt(d, p) == Scanned(1, vs[0], e)
    ensures d[e..] == seps[0] + Written(vs[1..], seps[1..])
  {
    var t, u := IntText(vs[0]), seps[0] + Written(vs[1..], seps[1..]);
    WrittenHead(vs, seps, t, u);
    FirstAfter(vs, seps);
    e := ReadsThrough(d, p, b, vs[0], t, u);
  }

  lemma ReadsThrough(d: seq<Byte>, p: nat, b: seq<Byte>, v: int, t: seq<Byte>, u: seq<Byte>) returns (e: nat)
    requires -TWO31 < v < TWO31 && t == IntText(v) && (u == [] || !IsDigit(u[0])) && Blank(b)
    requires p <= |d| && d[p..] == b + (t + u)
    ensures p < e <= |d| && ScanInt(d, p) == Scanned(1, v, e) && d[e..] == u
  {
    Splits(d, p, b, t + u);
    Splits(d, p + |b|, t, u);
    ReadsAfterBlank(d, p, b, v);
    e := p + |b| + |t|;
  }

  lemma ScanAllStep(d: seq<Byte>, p: nat, vs: seq<int>, e: nat)
    requires p < e <= |d| && vs != [] && ScanInt(d, p) == Scanned(1, vs[0], e) && ScanAll(d, e) == (vs[1..], -1)
    ensures ScanAll(d, p) == (vs, -1)
  {
    assert [vs[0]] + vs[1..] == vs;
  }

  lemma WrittenHead(vs: seq<int>, seps: seq<seq<Byte>>, t: seq<Byte>, u: seq<Byte>)
    requires |vs| == |seps| > 0 && t == IntText(vs[0]) && u == seps[0] + Written(vs[1..], seps[1..])
    ensures Written(vs, seps) == t + u
  {
    assert t + u == (t + seps[0]) + Written(vs[1..], seps[1..]);
  }

  lemma Splits(d: seq<Byte>, q: nat, t: seq<Byte>, u: seq<Byte>)
    requires q <= |d| && d[q..] == t + u
    ensures q + |t| <= |d| && d[q..q + |t|] == t && d[q + |t|..] == u
    ensures if u == [] then q + |t| == |d| else q + |t| < |d| && d[q + |t|] == u[0]
  {
    assert d[q..q + |t|] == d[q..][..|t|];
    assert d[q + |t|..] == d[q..][|t|..];
    assert u != [] ==> u[0] == d[q + |t|..][0];
  }

  /** The first separator starts with no digit, and is empty only if it is the last. */
  predicate EndsNumber(seps: seq<seq<Byte>>)
    requires seps != []
  {
    if seps[0] == [] then |seps| == 1 else !IsDigit(seps[0][0])
  }

  /** What follows a number starts with no digit, unless nothing follows. */
  lemma FirstAfter(vs: seq<int>, seps: seq<seq<Byte>>)
    requires |vs| == |seps| > 0 && EndsNumber(seps)
    ensures var u := seps[0] + Written(vs[1..], seps[1..]); u == [] || !IsDigit(u[0])
  {
  }

  lemma TailsPrintable(vs: seq<int>, seps: seq<seq<Byte>>)
    requires |vs| == |seps| > 0 && Printable(vs) && Separates(seps)
    ensures Printable(vs[1..]) && Separates(seps[1..]) && Blank(seps[0]) && EndsNumber(seps)
  {
    forall k | 0 <= k < |seps[1..]| ensures seps[1..][k] == seps[k + 1] {
    }
  }
}
