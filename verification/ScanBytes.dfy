/** What a scan makes of a file, in the bytes of the file. */
module ScanBytes {
  import opened Machine32
  import opened Decimal
  import opened FileStream

  // ---- where a scan stops ----

  /** Bytes `p` to `q` are blanks, and what follows, if anything does, is none. */
  ghost predicate BlanksUpTo(d: seq<Byte>, p: nat, q: nat)
  {
    p <= q <= |d|
    && (forall k :: p <= k < q ==> d[k] == 9 || d[k] == 10 || d[k] == 13 || d[k] == 32)
    && (q < |d| ==> !(d[q] == 9 || d[q] == 10 || d[q] == 13 || d[q] == 32))
  }

  /** Bytes `s` to `e` are digits, and what follows, if anything does, is none. */
  ghost predicate DigitsUpTo(d: seq<Byte>, s: nat, e: nat)
  {
    s <= e <= |d| && (forall k :: s <= k < e ==> 48 <= d[k] <= 57) && (e < |d| ==> !(48 <= d[e] <= 57))
  }

  /** The skip takes the maximal run of the four blank bytes, and no other byte. */
  lemma {:induction false} SkipsTheBlanks(d: seq<Byte>, p: nat, q: nat)
    requires p <= |d|
    ensures BlanksUpTo(d, p, q) <==> q == SkipSpace(d, p)
    decreases |d| - p
  {
    if p < |d| {
      SkipsTheBlanks(d, p + 1, q);
    }
  }

  lemma {:induction false} TakesTheDigits(d: seq<Byte>, s: nat, e: nat)
    requires s <= |d|
    ensures DigitsUpTo(d, s, e) <==> e == EndOfDigits(d, s)
    decreases |d| - s
  {
    if s < |d| {
      TakesTheDigits(d, s + 1, e);
    }
  }

  // ---- the number ----

  lemma WrapsOnce(x: int, k: int)
    ensures S32(S32(x) * 10 + k) == S32(x * 10 + k) && S32(-S32(x)) == S32(-x)
  {
    var s := S32(x);
    WordOf(x);
    CongruentProduct(s, x, 10);
    CongruentSum(s * 10, x * 10, k, k);
    SameWord(s * 10 + k, x * 10 + k);
    CongruentSum(0, 0, s, x);
    SameWord(0 - s, 0 - x);
  }

  /** However many digits there are, the accumulated number is the denoted one, wrapped to an int once. */
  lemma {:induction false} Accumulates(d: seq<Byte>, s: nat, p: nat, e: nat)
    requires s <= p && DigitsUpTo(d, s, e) && p <= e
    ensures Accumulate(d, p, S32(Value(d[s..p]))) == S32(Value(d[s..e]))
    decreases e - p
  {
    if p < e {
      assert d[s..p + 1][..p - s] == d[s..p];
      WrapsOnce(Value(d[s..p]), (d[p] - 48) as int);
      Accumulates(d, s, p + 1, e);
    }
  }

  /** One scan: at the end of the file -1; at a byte that is neither a digit nor a minus before a digit 0;
      else 1 and the number the digits denote, as a 32-bit int. */
  lemma ScanIs(d: seq<Byte>, p: nat, q: nat, s: nat, e: nat, v: int)
    requires BlanksUpTo(d, p, q) && s == (if q < |d| && d[q] == 45 then q + 1 else q) && DigitsUpTo(d, s, e)
    requires v == Value(d[s..e])
    ensures ScanInt(d, p) ==
      if q == |d| then Scanned(-1, 0, q)
      else if e == s then Scanned(0, 0, s)
      else Scanned(1, S32(if s == q then v else -v), e)
  {
    SkipsTheBlanks(d, p, q);
    TakesTheDigits(d, s, e);
    DigitsTotal(d, s, e, v);
    ScanShape(d, p, q, s, e, S32(v));
    WrapsTwice(v);
  }

  lemma WrapsTwice(x: int)
    ensures S32(S32(x)) == S32(x) && S32(-S32(x)) == S32(-x)
  {
    WrapsOnce(x, 0);
    WordOf(x);
    SameWord(S32(x), x);
  }

  lemma DigitsTotal(d: seq<Byte>, s: nat, e: nat, v: int)
    requires DigitsUpTo(d, s, e) && v == Value(d[s..e])
    ensures Accumulate(d, s, 0) == S32(v)
  {
    assert d[s..s] == [];
    Accumulates(d, s, s, e);
  }

  lemma ScanShape(d: seq<Byte>, p: nat, q: nat, s: nat, e: nat, v: int)
    requires p <= |d| && q == SkipSpace(d, p) && s == (if q < |d| && d[q] == 45 then q + 1 else q)
    requires s <= |d| && e == EndOfDigits(d, s) && v == Accumulate(d, s, 0)
    ensures ScanInt(d, p) ==
      if q == |d| then Scanned(-1, 0, q)
      else if e == s then Scanned(0, 0, s)
      else Scanned(1, S32(if s == q then v else -v), e)
  {
  }

  // ---- separators ----

  /** Neither a digit nor a minus sign. */
  predicate NoNumber(s: seq<Byte>) { forall k :: 0 <= k < |s| ==> s[k] != 45 && !(48 <= s[k] <= 57) }

  /** Separators without digits and minus signs, of which only the last may be empty. */
  predicate Parts(seps: seq<seq<Byte>>)
  {
    forall k :: 0 <= k < |seps| ==> NoNumber(seps[k]) && (k < |seps| - 1 ==> seps[k] != [])
  }

  predicate AllBlank(seps: seq<seq<Byte>>) { forall k :: 0 <= k < |seps| ==> Blank(seps[k]) }

  /** A byte that is no blank, no digit and no minus sign stops the scan with status 0. */
  lemma OtherByteStops(d: seq<Byte>, p: nat, q: nat)
    requires BlanksUpTo(d, p, q) && q < |d| && d[q] != 45 && !(48 <= d[q] <= 57)
    ensures ScanInt(d, p) == Scanned(0, 0, q)
  {
    assert DigitsUpTo(d, q, q);
    ScanIs(d, p, q, q, q, Value(d[q..q]));
  }

  lemma StopsWithin(d: seq<Byte>, p: nat, b: seq<Byte>)
    requires p + |b| <= |d| && d[p..p + |b|] == b && NoNumber(b) && !Blank(b)
    ensures ScanAll(d, p) == ([], 0)
  {
    var q := SkipSpace(d, p);
    SkipsTheBlanks(d, p, q);
    var j :| 0 <= j < |b| && !(b[j] == 9 || b[j] == 10 || b[j] == 13 || b[j] == 32);
    assert d[p + j] == d[p..p + |b|][j] == b[j];
    assert q <= p + j;
    assert d[q] == d[p..p + |b|][q - p] == b[q - p];
    OtherByteStops(d, p, q);
  }

  lemma PartsTail(vs: seq<int>, seps: seq<seq<Byte>>)
    requires |vs| == |seps| > 0 && Printable(vs) && Parts(seps)
    ensures Printable(vs[1..]) && Parts(seps[1..]) && NoNumber(seps[0]) && EndsNumber(seps)
    ensures AllBlank(seps) <==> Blank(seps[0]) && AllBlank(seps[1..])
  {
    forall k | 0 <= k < |seps[1..]| ensures seps[1..][k] == seps[k + 1] {
    }
  }

  lemma {:induction false} EndsWith(d: seq<Byte>, p: nat, b: seq<Byte>, vs: seq<int>, seps: seq<seq<Byte>>)
    requires |vs| == |seps| && Printable(vs) && Parts(seps) && NoNumber(b)
    requires p <= |d| && d[p..] == b + Written(vs, seps)
    ensures ScanAll(d, p).1 == if Blank(b) && AllBlank(seps) then -1 else 0
    decreases |vs|
  {
    Splits(d, p, b, Written(vs, seps));
    if !Blank(b) {
      StopsWithin(d, p, b);
    } else if vs == [] {
      SkipsBlank(d, p, b);
    } else {
      PartsTail(vs, seps);
      var e := ReadsHead(d, p, b, vs, seps);
      EndsWith(d, e, seps[0], vs[1..], seps[1..]);
    }
  }

  /** Integers printed between separators without digits and minus signs are read back whole exactly when the
      separators hold nothing but tabs, newlines, carriage returns and spaces; else a scan answers 0. */
  lemma ReadBackWhen(vs: seq<int>, seps: seq<seq<Byte>>)
    requires |vs| == |seps| && Parts(seps)
    requires forall k :: 0 <= k < |vs| ==> -0x8000_0000 < vs[k] < 0x8000_0000
    ensures var r := ScanAll(Written(vs, seps), 0);
      if AllBlank(seps) then r == (vs, -1) else r.1 == 0
  {
    var d := Written(vs, seps);
    assert d[0..] == [] + d;
    EndsWith(d, 0, [], vs, seps);
    if AllBlank(seps) {
      PrintedIsReadBack(vs, seps);
    }
  }
}
