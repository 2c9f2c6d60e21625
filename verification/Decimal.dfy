/** Decimal text: division by ten without dividing, printing with padding, and the two printers. */
module Decimal {
  import opened Machine32

  const ZERO: Byte := 48
  const MINUS: Byte := 45
  const BLANK: Byte := 32

  // ---- decimal numerals ----

  /** The decimal numeral of `n`. */
  function Dec(n: nat): (s: seq<Byte>)
    ensures |s| > 0
    decreases n
  {
    if n < 10 then [ZERO + n] else Dec(n / 10) + [ZERO + n % 10]
  }

  function IntText(v: int): (s: seq<Byte>)
    ensures |s| > 0
  {
    if v < 0 then [MINUS] + Dec(-v) else Dec(v)
  }

  predicate IsDigit(c: Byte) { ZERO <= c <= ZERO + 9 }

  /** The number a string of digits denotes. */
  function Value(s: seq<Byte>): int
  {
    if s == [] then 0 else 10 * Value(s[..|s| - 1]) + (s[|s| - 1] as int - 48)
  }

  /** The numeral is digits only, denotes `n`, and has no leading zero. */
  lemma {:induction false} DecDenotes(n: nat)
    ensures var s := Dec(n);
      (forall k :: 0 <= k < |s| ==> 48 <= s[k] <= 57) && Value(s) == n && (s[0] == 48 <==> n == 0)
    decreases n
  {
    if n >= 10 {
      DecDenotes(n / 10);
      assert Dec(n)[..|Dec(n)| - 1] == Dec(n / 10);
    }
  }

  /** A negative number's text is a minus sign and the numeral of its magnitude. */
  lemma TextDenotes(v: int)
    ensures var t := IntText(v);
      var s := if v < 0 then t[1..] else t;
      (v < 0 ==> t[0] == 45) && (forall k :: 0 <= k < |s| ==> 48 <= s[k] <= 57)
      && Value(s) == (if v < 0 then -v else v)
  {
    DecDenotes(if v < 0 then -v else v);
    assert v < 0 ==> IntText(v)[1..] == Dec(-v);
  }

  /** It has at most `k` digits when `n` is below `bound`, the k-th power of ten. */
  lemma {:induction false} DecLength(n: nat, k: nat, bound: nat)
    requires k > 0 && bound == Pow10(k) && n < bound
    ensures |Dec(n)| <= k
    decreases k
  {
    assert k == 1 ==> bound == 10;
    if n >= 10 {
      DecLength(n / 10, k - 1, Pow10(k - 1));
    }
  }

  function Pow10(k: nat): (p: nat)
    ensures p > 0
  {
    if k == 0 then 1 else 10 * Pow10(k - 1)
  }

  lemma WordDigits(n: nat)
    requires IsU32(n)
    ensures |Dec(n)| <= 10
  {
    PowerOfTen();
    DecLength(n, 10, Pow10(10));
  }

  lemma PowerOfTen()
    ensures Pow10(10) == 10_000_000_000
  {
    assert Pow10(4) == 10_000;
    assert Pow10(7) == 10_000_000;
  }

  // ---- division by ten, by shifts ----

  function ShiftAdd(q: nat, k: nat): nat
    requires k > 0
  {
    U32(q + q / k)
  }

  function ThreeQuarters(n: nat): nat { U32(n / 2 + n / 4) }

  function LastShift(q: nat): nat { ShiftAdd(q, 0x1_0000) / 8 }

  function LastShifts(q: nat): nat { LastShift(ShiftAdd(q, 256)) }

  function AllShifts(q: nat): nat { LastShifts(ShiftAdd(q, 16)) }

  function DivU10(n: nat): (r: nat)
    requires IsU32(n)
  {
    Corrected(n, AllShifts(ThreeQuarters(n)))
  }

  function Corrected(n: nat, q: nat): (r: nat)
  {
    U32(q + U32(U32(n - U32(q * 10)) + 6) / 16)
  }

  lemma CorrectionIsExact(n: nat, q: nat)
    requires IsU32(n) && 0 <= n - 10 * q < 16
    ensures Corrected(n, q) == n / 10
  {
    assert U32(q * 10) == q * 10 && U32(n - q * 10) == n - 10 * q;
    assert U32(n - 10 * q + 6) == n - 10 * q + 6;
  }

  /** The estimate is at most one short of the quotient. */
  lemma Estimate(n: nat, q0: nat, q1: nat, q2: nat, q3: nat)
    requires IsU32(n) && q0 == n / 2 + n / 4 && q1 == q0 + q0 / 16 && q2 == q1 + q1 / 256 && q3 == q2 + q2 / 0x1_0000
    ensures 0 <= n - 10 * (q3 / 8) < 16 && q0 <= q1 <= q2 <= q3 < TWO32
  {
    assert 3 * n - 5 <= 4 * q0 <= 3 * n;
    assert 17 * q0 - 15 <= 16 * q1 <= 17 * q0;
    assert 257 * q1 - 255 <= 256 * q2 <= 257 * q1;
    assert 65537 * q2 - 65535 <= 65536 * q3 <= 65537 * q2;
  }

  lemma DivU10IsQuotient(n: nat)
    requires IsU32(n)
    ensures DivU10(n) == n / 10
  {
    var q0 := n / 2 + n / 4;
    var q1 := q0 + q0 / 16;
    var q2 := q1 + q1 / 256;
    var q3 := q2 + q2 / 0x1_0000;
    Estimate(n, q0, q1, q2, q3);
    ThreeQuartersFit(n, q0);
    StepIs(q0, 16, q1);
    StepIs(q1, 256, q2);
    StepIs(q2, 0x1_0000, q3);
    ShiftsAre(q0, q1, q2, q3);
    CorrectionIsExact(n, q3 / 8);
    DivU10By(n, q0, q3 / 8);
  }

  lemma ThreeQuartersFit(n: nat, q: nat)
    requires q == n / 2 + n / 4 && q < TWO32
    ensures ThreeQuarters(n) == q
  {
  }

  lemma StepIs(q: nat, k: nat, r: nat)
    requires k > 0 && r == q + q / k && r < TWO32
    ensures ShiftAdd(q, k) == r
  {
  }

  lemma ShiftsAre(q0: nat, q1: nat, q2: nat, q3: nat)
    requires ShiftAdd(q0, 16) == q1 && ShiftAdd(q1, 256) == q2 && ShiftAdd(q2, 0x1_0000) == q3
    ensures AllShifts(q0) == q3 / 8
  {
    assert LastShift(q2) == q3 / 8;
    assert LastShifts(q1) == LastShift(q2);
  }

  lemma DivU10By(n: nat, q0: nat, q: nat)
    requires IsU32(n) && ThreeQuarters(n) == q0 && AllShifts(q0) == q
    ensures DivU10(n) == Corrected(n, q)
  {
  }

  // ---- remainder by ten, by a table ----

  const REMU10_TABLE: seq<nat> := [0, 1, 2, 2, 3, 3, 4, 5, 5, 6, 7, 7, 8, 8, 9, 0]

  function RemU10(n: nat): (r: nat)
    requires IsU32(n)
  {
    REMU10_TABLE[U32(U32(0x1999_9999 * n) + n / 2 + n / 8) / 0x1000_0000]
  }

  /** Modulo 2^32 the scaled sum is 0x19999999 times the last digit, and a little. */
  lemma ScaledSum(n: nat, k: nat, r: nat)
    requires IsU32(n) && n == 10 * k + r && r < 10
    ensures U32(U32(0x1999_9999 * n) + n / 2 + n / 8) == 0x1999_9999 * r + r / 2 + (2 * k + r) / 8
  {
    assert n / 2 == 5 * k + r / 2;
    assert n / 8 == k + (2 * k + r) / 8;
    var t := 0x1999_9999 * r + r / 2 + (2 * k + r) / 8;
    assert 0x1999_9999 * n + n / 2 + n / 8 == t + k * TWO32;
    assert 0 <= t < TWO32;
    SumWraps(0x1999_9999 * n, n / 2 + n / 8, t, k);
  }

  lemma SumWraps(a: nat, b: nat, t: nat, k: nat)
    requires a + b == t + k * TWO32 && t < TWO32
    ensures U32(U32(a) + b) == t
  {
  }

  lemma RemU10IsRemainder(n: nat)
    requires IsU32(n)
    ensures RemU10(n) == n % 10
  {
    RemU10Of(n, n / 10, n % 10);
  }

  lemma RemU10Of(n: nat, k: nat, r: nat)
    requires IsU32(n) && n == 10 * k + r && r < 10
    ensures RemU10(n) == r
  {
    ScaledSum(n, k, r);
    Table(k, r);
  }

  /** There is no slack: for these numbers the sum is one short of the next slot, and for the second one that
      slot holds another digit. */
  lemma TableIsTight()
    ensures U32(U32(0x1999_9999 * 5) + 5 / 2 + 5 / 8) + 1 == 8 * 0x1000_0000
    ensures var n := 4294967291;
      n % 10 == 1 && U32(U32(0x1999_9999 * n) + n / 2 + n / 8) + 1 == 2 * 0x1000_0000 && REMU10_TABLE[2] == 2
  {
    ScaledSum(5, 0, 5);
    ScaledSum(4294967291, 429496729, 1);
  }

  /** The sum's slot holds the last digit, for every quotient and digit of a 32-bit number. */
  lemma Table(k: nat, r: nat)
    requires r < 10 && 10 * k + r < TWO32
    ensures var t := 0x1999_9999 * r + r / 2 + (2 * k + r) / 8;
      t < TWO32 && REMU10_TABLE[t / 0x1000_0000] == r
  {
    var t := 0x1999_9999 * r + r / 2 + (2 * k + r) / 8;
    var s := t / 0x1000_0000;
    if r == 0 { assert s == 0; }
    else if r == 1 { assert s == 1; }
    else if r == 2 { assert s == 3; }
    else if r == 3 { assert s == 4 || s == 5; }
    else if r == 4 { assert s == 6; }
    else if r == 5 { assert s == 7 || s == 8; }
    else if r == 6 { assert s == 9; }
    else if r == 7 { assert s == 11; }
    else if r == 8 { assert s == 12 || s == 13; }
    else { assert s == 14; }
  }

  // ---- padded output ----

  function Repeat(c: Byte, n: nat): (s: seq<Byte>)
    ensures |s| == n
  {
    seq(n, i => c)
  }

  /** `s` padded to `width`: on the right if `right`, otherwise on the left; with zeros or blanks. */
  function Padded(s: seq<Byte>, width: int, right: bool, zero: bool): (t: seq<Byte>)
    ensures |t| == Max(width, |s|)
  {
    var p := Repeat(if zero && width > 0 then ZERO else BLANK, Max(width, |s|) - |s|);
    if right then s + p else p + s
  }

  lemma PaddedShape(s: seq<Byte>, width: int, right: bool, zero: bool, lead: nat, trail: nat)
    requires lead == if right then 0 else Max(width, |s|) - |s|
    requires trail == if right then Max(width, |s|) - |s| else 0
    ensures var c := if zero && width > 0 then ZERO else BLANK;
      Padded(s, width, right, zero) == Repeat(c, lead) + s + Repeat(c, trail)
  {
  }

  lemma Regroup(a: seq<Byte>, b: seq<Byte>, c: seq<Byte>, d: seq<Byte>)
    ensures ((a + b) + c) + d == a + (b + c + d)
    ensures (a + b) + c == a + (b + c)
  {
  }

  /** An int in decimal: the sign of a zero-padded negative number comes before the padding. */
  function Formatted(v: int, width: int, right: bool, zero: bool): (t: seq<Byte>)
    ensures |t| == Max(width, |IntText(v)|)
  {
    if v < 0 && width != 0 && zero then [MINUS] + Padded(Dec(-v), width - 1, right, zero)
    else Padded(IntText(v), width, right, zero)
  }

  lemma FormattedCases(neg: bool, u: int, width: int, right: bool, zero: bool)
    requires 0 < u
    ensures var n := if neg then -u else u;
      IntText(n) == (if neg then [MINUS] else []) + Dec(u)
      && Formatted(n, width, right, zero)
         == if neg && width != 0 && zero then [MINUS] + Padded(Dec(u), width - 1, right, zero)
            else Padded((if neg then [MINUS] else []) + Dec(u), width, right, zero)
  {
    assert [] + Dec(u) == Dec(u);
  }

  const PRINT_BUF_LEN: nat := 32

  /** Where the printers put their characters: a buffer or the serial port. */
  class Output {
    var text: seq<Byte>

    method PutChar(c: Byte)
      modifies this
      ensures text == old(text) + [c]
    {
      text := text + [c];
    }

    method PutRepeated(c: Byte, n: int) returns (pc: nat)
      modifies this
      ensures pc == Max(n, 0) && text == old(text) + Repeat(c, Max(n, 0))
    {
      pc := 0;
      var left := n;
      while left > 0
        invariant left <= Max(n, 0) && pc == Max(n, 0) - Max(left, 0)
        invariant text == old(text) + Repeat(c, pc)
      {
        PutChar(c);
        pc := pc + 1;
        left := left - 1;
        assert Repeat(c, pc) == Repeat(c, pc - 1) + [c];
      }
    }

    /** Prints a string; answers the number of characters printed. */
    method PrintString(s: seq<Byte>, width: int, right: bool, zero: bool) returns (pc: nat)
      modifies this
      ensures text == old(text) + Padded(s, width, right, zero) && pc == Max(width, |s|)
    {
      var left, padChar := width, BLANK;
      if width > 0 {
        left := if |s| >= width then 0 else width - |s|;
        padChar := if zero then ZERO else BLANK;
      }
      pc := 0;
      if !right {
        pc := PutRepeated(padChar, left);
        left := 0;
      }
      ghost var lead := pc;
      var n := PutAll(s);
      var more := PutRepeated(padChar, left);
      PaddedShape(s, width, right, zero, lead, more);
      Regroup(old(text), Repeat(padChar, lead), s, Repeat(padChar, more));
      pc := pc + n + more;
    }

    method PutAll(s: seq<Byte>) returns (pc: nat)
      modifies this
      ensures text == old(text) + s && pc == |s|
    {
      pc := 0;
      while pc < |s|
        invariant 0 <= pc <= |s| && text == old(text) + s[..pc]
      {
        PutChar(s[pc]);
        assert s[..pc + 1] == s[..pc] + [s[pc]];
        pc := pc + 1;
      }
      assert s[..pc] == s;
    }

    /** Prints an int in decimal, signed or unsigned. */
    method PrintInt(v: int, signed: bool, width: int, right: bool, zero: bool) returns (pc: nat)
      requires IsS32(v) && (signed ==> v > -TWO31)
      modifies this
      ensures var n := if signed then v else U32(v);
        text == old(text) + Formatted(n, width, right, zero) && pc == Max(width, |IntText(n)|)
    {
      if v == 0 {
        pc := PrintString([ZERO], width, right, zero);
        return;
      }
      var neg := signed && v < 0;
      var u := if neg then -v else U32(v);
      pc := PrintMagnitude(neg, u, width, right, zero);
    }

    method PrintMagnitude(neg: bool, u: int, width: int, right: bool, zero: bool) returns (pc: nat)
      requires 0 < u && IsU32(u)
      modifies this
      ensures var n := if neg then -u else u;
        text == old(text) + Formatted(n, width, right, zero) && pc == Max(width, |IntText(n)|)
    {
      FormattedCases(neg, u, width, right, zero);
      if neg && width != 0 && zero {
        pc := PrintSignFirst(u, width, right);
      } else {
        var numeral := Numeral(neg, u);
        pc := PrintString(numeral, width, right, zero);
      }
    }

    /** The sign, then the zero-padded digits. */
    method PrintSignFirst(u: nat, width: int, right: bool) returns (pc: nat)
      requires 0 < u && IsU32(u)
      modifies this
      ensures text == old(text) + ([MINUS] + Padded(Dec(u), width - 1, right, true))
      ensures pc == 1 + Max(width - 1, |Dec(u)|)
    {
      var digits := Numeral(false, u);
      PutChar(MINUS);
      pc := PrintString(digits, width - 1, right, true);
      Regroup(old(text), [MINUS], Padded(digits, width - 1, right, true), []);
      pc := pc + 1;
    }

    /** The text of a magnitude and, if wanted, its sign, built from the end of a scratch buffer. */
    method Numeral(sign: bool, u: nat) returns (numeral: seq<Byte>)
      requires 0 < u && IsU32(u)
      ensures numeral == (if sign then [MINUS] else []) + Dec(u)
    {
      var buf := new Byte[PRINT_BUF_LEN];
      var s := Digits(buf, u);
      ghost var digits := buf[s..PRINT_BUF_LEN - 1];
      if sign {
        s := s - 1;
        buf[s] := MINUS;
        assert buf[s..PRINT_BUF_LEN - 1] == [MINUS] + digits;
      }
      numeral := buf[s..PRINT_BUF_LEN - 1];
    }

    /** Writes the digits of `u` at the end of the buffer, last digit first; there is room to spare. */
    method Digits(buf: array<Byte>, u: nat) returns (s: nat)
      requires buf.Length == PRINT_BUF_LEN && 0 < u && IsU32(u)
      modifies buf
      ensures 0 < s < PRINT_BUF_LEN && buf[s..PRINT_BUF_LEN - 1] == Dec(u)
    {
      WordDigits(u);
      buf[PRINT_BUF_LEN - 1] := 0;
      s := PRINT_BUF_LEN - 1;
      var rest := u;
      while rest > 0
        invariant IsU32(rest) && 0 <= s <= PRINT_BUF_LEN - 1
        invariant rest > 0 ==> Dec(u) == Dec(rest) + buf[s..PRINT_BUF_LEN - 1]
        invariant rest == 0 ==> Dec(u) == buf[s..PRINT_BUF_LEN - 1]
        decreases rest
      {
        RemU10IsRemainder(rest);
        DivU10IsQuotient(rest);
        ghost var tail := buf[s..PRINT_BUF_LEN - 1];
        s := s - 1;
        buf[s] := ZERO + RemU10(rest);
        assert buf[s..PRINT_BUF_LEN - 1] == [ZERO + rest % 10] + tail;
        rest := DivU10(rest);
      }
    }
  }
}
