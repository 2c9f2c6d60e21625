/** What the printers' text says, byte by byte: a number, unless zeros were put behind it. */
module PrintedText {
  import opened Machine32
  import opened Decimal

  /** Byte `k` of `s` padded to `n` bytes: behind it or in front of it, with '0' or ' '. */
  function PaddedByte(s: seq<Byte>, n: nat, right: bool, zeros: bool, k: nat): int
    requires |s| <= n
  {
    var c := if zeros then 48 else 32;
    if right then if k < |s| then s[k] else c
    else if n - |s| <= k < n then s[k - (n - |s|)] else c
  }

  /** The padded text has the string's length or the width, and these bytes. */
  lemma PaddedBytes(s: seq<Byte>, width: int, right: bool, zero: bool, k: nat)
    ensures var t, n := Padded(s, width, right, zero), Max(width, |s|);
      |t| == n && (k < n ==> t[k] == PaddedByte(s, n, right, zero && width > 0, k))
  {
  }

  // ---- reading the text ----

  /** Blanks around a number: a minus sign if it is negative, and digits that denote its magnitude. */
  ghost predicate ShowsBetween(t: seq<Byte>, from: nat, to: nat, v: int)
  {
    from < to <= |t|
    && (forall k :: 0 <= k < from ==> t[k] == 32) && (forall k :: to <= k < |t| ==> t[k] == 32)
    && (if v < 0 then t[from] == 45 && Denotes(t[from + 1..to], -v) else Denotes(t[from..to], v))
  }

  /** At least one digit, and nothing else. */
  ghost predicate Denotes(s: seq<Byte>, n: nat)
  {
    |s| > 0 && (forall k :: 0 <= k < |s| ==> 48 <= s[k] <= 57) && Value(s) == n
  }

  ghost predicate Shows(t: seq<Byte>, v: int)
  {
    exists from: nat, to: nat :: ShowsBetween(t, from, to, v)
  }

  lemma {:induction false} ZerosInFront(k: nat, s: seq<Byte>)
    ensures Value(Repeat(48, k) + s) == Value(s)
    decreases |s|, k
  {
    var t := Repeat(48, k) + s;
    if s != [] {
      assert t[..|t| - 1] == Repeat(48, k) + s[..|s| - 1];
      ZerosInFront(k, s[..|s| - 1]);
    } else if k > 0 {
      assert t[..|t| - 1] == Repeat(48, k - 1) + s;
      ZerosInFront(k - 1, s);
    }
  }

  lemma {:induction false} ZerosBehind(s: seq<Byte>, k: nat)
    requires Value(s) > 0
    ensures Value(s + Repeat(48, k)) >= Value(s) && (k > 0 ==> Value(s + Repeat(48, k)) > Value(s))
    decreases k
  {
    var t := s + Repeat(48, k);
    if k > 0 {
      assert t[..|t| - 1] == s + Repeat(48, k - 1);
      ZerosBehind(s, k - 1);
    } else {
      assert t == s;
    }
  }

  function Sign(v: int): seq<Byte> { if v < 0 then [45] else [] }

  function Magnitude(v: int): nat { if v < 0 then -v else v }

  /** Nothing but blanks around the number. */
  lemma BlanksAround(v: int, lead: nat, trail: nat)
    ensures Shows(Repeat(32, lead) + IntText(v) + Repeat(32, trail), v)
  {
    var s := IntText(v);
    var t := Repeat(32, lead) + s + Repeat(32, trail);
    DecDenotes(Magnitude(v));
    assert t[lead..lead + |s|] == s;
    assert v < 0 ==> t[lead + 1..lead + |s|] == Dec(-v);
    assert ShowsBetween(t, lead, lead + |s|, v);
  }

  /** Zeros between the sign and the digits do no harm. */
  lemma ZerosBefore(v: int, k: nat)
    ensures Shows(Sign(v) + (Repeat(48, k) + Dec(Magnitude(v))), v)
  {
    var d := Dec(Magnitude(v));
    DecDenotes(Magnitude(v));
    ZerosInFront(k, d);
    SignedShows(v, Repeat(48, k) + d);
  }

  lemma SignedShows(v: int, s: seq<Byte>)
    requires Denotes(s, Magnitude(v))
    ensures Shows(Sign(v) + s, v)
  {
    var t := Sign(v) + s;
    assert if v < 0 then t[1..|t|] == s else t[0..|t|] == s;
    assert ShowsBetween(t, 0, |t|, v);
  }

  /** Zeros behind the digits make another number, except of 0. */
  lemma ZerosAfter(v: int, k: nat)
    requires k > 0
    ensures Shows(Sign(v) + (Dec(Magnitude(v)) + Repeat(48, k)), v) <==> v == 0
  {
    var d, n := Dec(Magnitude(v)), Magnitude(v);
    var s := d + Repeat(48, k);
    var t := Sign(v) + s;
    DecDenotes(n);
    if v == 0 {
      assert d == [48] && d + Repeat(48, k) == Repeat(48, k) + d;
      ZerosBefore(0, k);
    } else {
      ZerosBehind(d, k);
      forall from: nat, to: nat ensures !ShowsBetween(t, from, to, v) {
        NotShown(t, v, s, from, to);
      }
    }
  }

  lemma NotShown(t: seq<Byte>, v: int, s: seq<Byte>, from: nat, to: nat)
    requires t == Sign(v) + s && Value(s) > Magnitude(v) && |s| > 0
    requires forall k :: 0 <= k < |s| ==> 48 <= s[k] <= 57
    ensures !ShowsBetween(t, from, to, v)
  {
    assert t[|t| - 1] == s[|s| - 1];
    assert t[0] == if v < 0 then 45 else s[0];
    if from == 0 && to == |t| {
      assert if v < 0 then t[1..to] == s else t[0..to] == s;
    }
  }

  /** An int's text shows the int exactly unless it is not 0 and zeros are put behind it: with the right-hand flag,
      the zero flag and a width beyond the text's length. */
  lemma FormattedShows(v: int, width: int, right: bool, zero: bool)
    ensures Shows(Formatted(v, width, right, zero), v)
      <==> !(right && zero && width > |IntText(v)| && v != 0)
  {
    var d := Dec(Magnitude(v));
    assert IntText(v) == Sign(v) + d;
    if zero && width > |IntText(v)| {
      var pad := width - |IntText(v)|;
      ZeroPadded(v, d, width, right, pad);
      if right {
        ZerosAfter(v, pad);
      } else {
        ZerosBefore(v, pad);
      }
    } else {
      var lead, trail := BlankPadded(v, width, right, zero);
      BlanksAround(v, lead, trail);
    }
  }

  lemma ZeroPadded(v: int, d: seq<Byte>, width: int, right: bool, pad: nat)
    requires d == Dec(Magnitude(v)) && pad > 0 && width == |Sign(v)| + |d| + pad
    ensures Formatted(v, width, right, true) == Sign(v) + (if right then d + Repeat(48, pad) else Repeat(48, pad) + d)
  {
    ZerosPad(d, |d| + pad, right, pad);
    if v >= 0 {
      assert Sign(v) + Padded(d, |d| + pad, right, true) == Padded(d, |d| + pad, right, true);
    }
  }

  lemma ZerosPad(d: seq<Byte>, width: int, right: bool, pad: nat)
    requires pad > 0 && width == |d| + pad
    ensures Padded(d, width, right, true) == if right then d + Repeat(48, pad) else Repeat(48, pad) + d
  {
  }

  lemma BlankPadded(v: int, width: int, right: bool, zero: bool) returns (lead: nat, trail: nat)
    requires !(zero && width > |IntText(v)|)
    ensures Formatted(v, width, right, zero) == Repeat(32, lead) + IntText(v) + Repeat(32, trail)
  {
    var s := IntText(v);
    var pad := Max(width, |s|) - |s|;
    lead, trail := if right then 0 else pad, if right then pad else 0;
  }
}
