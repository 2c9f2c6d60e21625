/** The memory-policing log: records packed by the firmware into DSPM words, and the host program
    that reads them back. */
module MempolLog {
  import opened Machine32
  import opened Bits

  const MAX_ENTRIES: nat := 10000

  /** DSPM in words: its size, and where the log's header word is. */
  const DSPM_WORDS: nat := 0x20000 / 4
  const LOG_BASE: nat := 0x2000 / 4

  /** What one iteration reports about core 0. */
  datatype Report = Report(llcRd: nat, llcWr: nat, memRd: nat, memWr: nat, decision: nat, token: int)
  {
    /** Counters have 31 bits, decisions are 0, 1 or 2, the token is an int32_t. */
    predicate Valid()
    {
      llcRd < TWO31 && llcWr < TWO31 && memRd < TWO31 && memWr < TWO31 && decision <= 2 && IsS32(token)
    }
  }

  // ---- packing, as the firmware does it ----

  function Saturate(x: nat, max: nat): nat { if x > max then max else x }

  function CountsWord(r: Report): nat
  {
    Or(Or(Or(Shl32(Saturate(r.llcRd, 511), 23), Shl32(Saturate(r.llcWr, 511), 14)),
          Shl32(Saturate(r.memRd, 127), 7)),
       Saturate(r.memWr, 127))
  }

  function TokenWord(r: Report): nat
  {
    Or(Shl32(r.decision, 30), And(U32(r.token), 0x3FFF_FFFF))
  }

  // ---- unpacking, as the host does it ----

  function Decode(w0: nat, w1: nat): Report
  {
    Report(And(Shr(w0, 23), 0x1FF), And(Shr(w0, 14), 0x1FF), And(Shr(w0, 7), 0x7F), And(w0, 0x7F),
           And(Shr(w1, 30), 0x3),
           S32(Or(And(w1, 0x3FFF_FFFF), if And(w1, 0x2000_0000) != 0 then 0xC000_0000 else 0)))
  }

  // ---- round trip ----

  lemma Powers()
    ensures Pow2(7) == 128 && Pow2(9) == 512 && Pow2(14) == 0x4000 && Pow2(23) == 0x80_0000
    ensures Pow2(2) == 4 && Pow2(29) == 0x2000_0000 && Pow2(30) == 0x4000_0000
  {
  }

  /** Four fields of 9, 9, 7 and 7 bits. */
  function Fields(a: nat, b: nat, c: nat, d: nat): nat { a * 0x80_0000 + b * 0x4000 + c * 128 + d }

  lemma PackFields(a: nat, b: nat, c: nat, d: nat)
    requires a <= 511 && b <= 511 && c <= 127 && d <= 127
    ensures Or(Or(Or(Shl32(a, 23), Shl32(b, 14)), Shl32(c, 7)), d) == Fields(a, b, c, d)
  {
    PackHigh(a, b);
    PackMiddle(a * 512 + b, c);
    PackLow((a * 512 + b) * 128 + c, d);
  }

  lemma PackHigh(a: nat, b: nat)
    requires a <= 511 && b <= 511
    ensures Or(Shl32(a, 23), Shl32(b, 14)) == (a * 512 + b) * 0x4000
  {
    Powers();
    ShlFits(a, 23, 0x80_0000);
    ShlFits(b, 14, 0x4000);
    FieldBelow(a, b * 0x4000, 23, 0x80_0000);
  }

  lemma PackMiddle(ab: nat, c: nat)
    requires c <= 127
    ensures Or(ab * 0x4000, Shl32(c, 7)) == (ab * 128 + c) * 128
  {
    Powers();
    ShlFits(c, 7, 128);
    FieldBelow(ab, c * 128, 14, 0x4000);
  }

  lemma PackLow(abc: nat, d: nat)
    requires d <= 127
    ensures Or(abc * 128, d) == abc * 128 + d
  {
    Powers();
    FieldBelow(abc, d, 7, 128);
  }

  lemma UnpackFields(w: nat)
    ensures And(Shr(w, 23), 0x1FF) == (w / 0x80_0000) % 512 && And(Shr(w, 14), 0x1FF) == (w / 0x4000) % 512
    ensures And(Shr(w, 7), 0x7F) == (w / 128) % 128 && And(w, 0x7F) == w % 128
  {
    Powers();
    ShrIs(w, 23, 0x80_0000);
    ShrIs(w, 14, 0x4000);
    ShrIs(w, 7, 128);
    AndMask(w / 0x80_0000, 9);
    AndMask(w / 0x4000, 9);
    AndMask(w / 128, 7);
    AndMask(w, 7);
  }

  lemma FieldsRecovered(a: nat, b: nat, c: nat, d: nat)
    requires a <= 511 && b <= 511 && c <= 127 && d <= 127
    ensures var w := Fields(a, b, c, d);
            (w / 0x80_0000) % 512 == a && (w / 0x4000) % 512 == b && (w / 128) % 128 == c && w % 128 == d
  {
    var w := Fields(a, b, c, d);
    var ab := a * 512 + b;
    DivModUnique(w, 128, ab * 128 + c, d);
    DivModUnique(ab * 128 + c, 128, ab, c);
    DivModUnique(w, 0x4000, ab, c * 128 + d);
    DivModUnique(ab, 512, a, b);
    DivModUnique(w, 0x80_0000, a, b * 0x4000 + c * 128 + d);
    SmallMod(a, 512);
  }

  lemma SmallMod(a: nat, m: nat)
    requires a < m
    ensures a % m == a
  {
  }

  /** The first word: 9 bits of LLC reads, 9 of LLC writes, 7 of memory reads, 7 of memory writes, from the top. */
  lemma CountsWordIs(r: Report)
    ensures CountsWord(r) == Min(r.llcRd, 511) * 0x80_0000 + Min(r.llcWr, 511) * 0x4000
                             + Min(r.memRd, 127) * 128 + Min(r.memWr, 127)
  {
    PackFields(Min(r.llcRd, 511), Min(r.llcWr, 511), Min(r.memRd, 127), Min(r.memWr, 127));
  }

  /** The host takes any two words apart the same way. */
  lemma DecodedIs(w0: nat, w1: nat)
    ensures var r := Decode(w0, w1);
      && r.llcRd == (w0 / 0x80_0000) % 512 && r.llcWr == (w0 / 0x4000) % 512
      && r.memRd == (w0 / 128) % 128 && r.memWr == w0 % 128
      && r.decision == (w1 / 0x4000_0000) % 4
      && r.token == w1 % 0x4000_0000 - (if w1 % 0x4000_0000 >= 0x2000_0000 then 0x4000_0000 else 0)
  {
    UnpackFields(w0);
    UnpackToken(w1);
  }

  /** The host recovers the four counts, saturated. */
  lemma CountsRoundTrip(r: Report)
    ensures var back := Decode(CountsWord(r), TokenWord(r));
            && back.llcRd == Saturate(r.llcRd, 511) && back.llcWr == Saturate(r.llcWr, 511)
            && back.memRd == Saturate(r.memRd, 127) && back.memWr == Saturate(r.memWr, 127)
  {
    var a, b, c, d := Saturate(r.llcRd, 511), Saturate(r.llcWr, 511), Saturate(r.memRd, 127), Saturate(r.memWr, 127);
    PackFields(a, b, c, d);
    UnpackFields(Fields(a, b, c, d));
    FieldsRecovered(a, b, c, d);
  }

  lemma PackToken(decision: nat, t: nat)
    requires decision <= 2
    ensures Or(Shl32(decision, 30), And(t, 0x3FFF_FFFF)) == decision * 0x4000_0000 + t % 0x4000_0000
  {
    Powers();
    ShlFits(decision, 30, 0x4000_0000);
    AndMask(t, 30);
    OrDisjoint(decision * 0x4000_0000, t % 0x4000_0000, 30);
  }

  /** The host's sign extension from bit 29. */
  function SignExtended(low: nat): int { if low >= 0x2000_0000 then low - 0x4000_0000 else low }

  lemma UnpackToken(w: nat)
    ensures And(Shr(w, 30), 0x3) == (w / 0x4000_0000) % 4
    ensures S32(Or(And(w, 0x3FFF_FFFF), if And(w, 0x2000_0000) != 0 then 0xC000_0000 else 0))
            == SignExtended(w % 0x4000_0000)
  {
    UnpackParts(w);
    ExtendSign(w % 0x4000_0000);
  }

  lemma UnpackParts(w: nat)
    ensures And(Shr(w, 30), 0x3) == (w / 0x4000_0000) % 4 && And(w, 0x3FFF_FFFF) == w % 0x4000_0000
    ensures And(w, 0x2000_0000) != 0 <==> w % 0x4000_0000 >= 0x2000_0000
  {
    Powers();
    ShrIs(w, 30, 0x4000_0000);
    ShrIs(w, 29, 0x2000_0000);
    AndMask(w / 0x4000_0000, 2);
    AndMask(w, 30);
    AndBit(w, 29);
    TopBit(w);
  }

  lemma ExtendSign(low: nat)
    requires low < 0x4000_0000
    ensures S32(Or(low, if low >= 0x2000_0000 then 0xC000_0000 else 0)) == SignExtended(low)
  {
    if low >= 0x2000_0000 {
      Powers();
      OrCommutes(low, 0xC000_0000);
      OrDisjoint(0xC000_0000, low, 30);
      AboveTwo31(low);
    } else {
      assert Or(low, 0) == low;
    }
  }

  lemma AboveTwo31(low: nat)
    requires 0x2000_0000 <= low < 0x4000_0000
    ensures S32(0xC000_0000 + low) == low - 0x4000_0000
  {
  }

  lemma TopBit(w: nat)
    ensures (w / 0x2000_0000) % 2 == 1 <==> w % 0x4000_0000 >= 0x2000_0000
  {
  }

  lemma Recovered(r: Report)
    requires r.Valid()
    ensures var back := Decode(CountsWord(r), TokenWord(r));
            back.decision == r.decision && back.token == SignExtended(U32(r.token) % 0x4000_0000)
  {
    PackToken(r.decision, U32(r.token));
    var w := TokenWord(r);
    UnpackToken(w);
    SplitToken(r.decision, U32(r.token), w);
  }

  /** The second word: 2 bits of decision and the low 30 bits of the token. */
  lemma TokenWordIs(r: Report)
    requires r.Valid()
    ensures TokenWord(r) == r.decision * 0x4000_0000 + r.token % 0x4000_0000
  {
    PackToken(r.decision, U32(r.token));
    Low30(r.token);
  }

  lemma Low30(t: int)
    ensures U32(t) % 0x4000_0000 == t % 0x4000_0000
  {
    var q, k := t / 0x4000_0000, t / TWO32;
    assert U32(t) == t - k * TWO32;
    Mod30(U32(t), q - 4 * k, t % 0x4000_0000);
  }

  /** The decision always survives; the token exactly when it fits in 30 bits, signed. */
  lemma TokenRoundTrip(r: Report)
    requires r.Valid()
    ensures var back := Decode(CountsWord(r), TokenWord(r));
            && back.decision == r.decision
            && (back.token == r.token <==> -0x2000_0000 <= r.token < 0x2000_0000)
  {
    Recovered(r);
    SignExtendedIs(r.token);
  }

  lemma SplitToken(decision: nat, t: nat, w: nat)
    requires decision <= 2 && w == decision * 0x4000_0000 + t % 0x4000_0000
    ensures (w / 0x4000_0000) % 4 == decision && w % 0x4000_0000 == t % 0x4000_0000
  {
  }

  lemma SignExtendedIs(t: int)
    requires IsS32(t)
    ensures SignExtended(U32(t) % 0x4000_0000) == t <==> -0x2000_0000 <= t < 0x2000_0000
  {
    assert U32(t) == if t < 0 then t + TWO32 else t;
  }

  /** A token the log does not hold: the host reads 0 for it. */
  lemma LostToken(r: Report)
    requires r.Valid() && r.token == -0x4000_0000
    ensures Decode(CountsWord(r), TokenWord(r)).token == 0
  {
    Recovered(r);
  }

  /** The number in [-2^29, 2^29) that agrees with `t` modulo 2^30. */
  function Token30(t: int): (u: int)
    ensures -0x2000_0000 <= u < 0x2000_0000 && (t - u) % 0x4000_0000 == 0
  {
    (t + 0x2000_0000) % 0x4000_0000 - 0x2000_0000
  }

  /** What the host sees of a report. */
  function Seen(r: Report): Report
  {
    Report(Saturate(r.llcRd, 511), Saturate(r.llcWr, 511), Saturate(r.memRd, 127), Saturate(r.memWr, 127),
           r.decision, Token30(r.token))
  }

  lemma RoundTrip(r: Report)
    requires r.Valid()
    ensures Decode(CountsWord(r), TokenWord(r)) == Seen(r)
    ensures Seen(r).token == r.token <==> -0x2000_0000 <= r.token < 0x2000_0000
  {
    CountsRoundTrip(r);
    Recovered(r);
    SeenIs(r, Decode(CountsWord(r), TokenWord(r)));
    InRange30(r.token);
  }

  lemma SeenIs(r: Report, back: Report)
    requires back.llcRd == Saturate(r.llcRd, 511) && back.llcWr == Saturate(r.llcWr, 511)
    requires back.memRd == Saturate(r.memRd, 127) && back.memWr == Saturate(r.memWr, 127)
    requires back.decision == r.decision && back.token == SignExtended(U32(r.token) % 0x4000_0000)
    ensures back == Seen(r)
  {
    ExtendedIs(r.token);
  }

  lemma InRange30(t: int)
    ensures Token30(t) == t <==> -0x2000_0000 <= t < 0x2000_0000
  {
  }

  lemma ExtendedIs(t: int)
    ensures SignExtended(U32(t) % 0x4000_0000) == Token30(t)
  {
    var q, low := t / 0x4000_0000, t % 0x4000_0000;
    Low30(t);
    if low < 0x2000_0000 {
      Mod30(t + 0x2000_0000, q, low + 0x2000_0000);
    } else {
      Mod30(t + 0x2000_0000, q + 1, low - 0x2000_0000);
    }
  }

  lemma Mod30(x: int, q: int, r: nat)
    requires x == q * 0x4000_0000 + r && r < 0x4000_0000
    ensures x % 0x4000_0000 == r
  {
  }

  // ---- the log in memory ----

  function Slot(i: nat): nat { LOG_BASE + 1 + 3 * i }

  /** Slots are disjoint, clear of the header, and inside DSPM. */
  lemma SlotsFit(i: nat, j: nat)
    requires i < MAX_ENTRIES && j < MAX_ENTRIES
    ensures LOG_BASE < Slot(i) && Slot(i) + 1 < DSPM_WORDS
    ensures i != j ==> Slot(i) + 1 < Slot(j) || Slot(j) + 1 < Slot(i)
  {
  }

  /** A record is two words. */
  type Record = (nat, nat)

  function Packed(r: Report): Record { (CountsWord(r), TokenWord(r)) }

  function AllPacked(reports: seq<Report>): (records: seq<Record>)
    ensures |records| == |reports|
    ensures forall i :: 0 <= i < |reports| ==> records[i] == Packed(reports[i])
  {
    seq(|reports|, i requires 0 <= i < |reports| => Packed(reports[i]))
  }

  /** The header counts the records, and each record's two words are in its slot. */
  ghost predicate Holds(dspm: seq<nat>, records: seq<Record>)
  {
    && |dspm| == DSPM_WORDS && |records| <= MAX_ENTRIES && dspm[LOG_BASE] == |records|
    && forall i :: 0 <= i < |records| ==> dspm[Slot(i)] == records[i].0 && dspm[Slot(i) + 1] == records[i].1
  }

  /** What the log keeps of all the records it is given. */
  function Kept(all: seq<Record>): seq<Record>
  {
    if |all| <= MAX_ENTRIES then all else all[..MAX_ENTRIES]
  }

  /** The record's two words and then the header: only the last write makes the log hold one record more. */
  lemma OneMore(dspm: seq<nat>, all: seq<Record>, record: Record, dspm': seq<nat>)
    requires Holds(dspm, Kept(all)) && |Kept(all)| < MAX_ENTRIES
    requires var n := |Kept(all)|;
      dspm' == dspm[Slot(n) := record.0][Slot(n) + 1 := record.1][LOG_BASE := n + 1]
    ensures Kept(all + [record]) == Kept(all) + [record] && Holds(dspm', Kept(all + [record]))
    ensures var n := |Kept(all)|;
      Holds(dspm[Slot(n) := record.0], Kept(all))
      && Holds(dspm[Slot(n) := record.0][Slot(n) + 1 := record.1], Kept(all))
  {
    var n := |Kept(all)|;
    assert Kept(all) == all;
    forall i | 0 <= i < n
      ensures LOG_BASE < Slot(i) && Slot(i) + 1 < Slot(n) && dspm[Slot(i)] == all[i].0 && dspm[Slot(i) + 1] == all[i].1
    {
      SlotsFit(i, n);
    }
  }

  /** The firmware's log step. A reader interrupting it after any of its writes still finds a log
      that its header describes: the header is written last. */
  method Append(dspm: array<nat>, count: nat, record: Record, ghost all: seq<Record>) returns (count': nat)
    requires Holds(dspm[..], Kept(all)) && count == |Kept(all)|
    modifies dspm
    ensures Holds(dspm[..], Kept(all + [record])) && count' == |Kept(all + [record])|
    ensures dspm[0x800] == count' == if count < 10000 then count + 1 else count
    ensures count < 10000 ==> dspm[0x801 + 3 * count] == record.0 && dspm[0x802 + 3 * count] == record.1
    ensures forall k :: 0 <= k < dspm.Length
              && !(count < 10000 && (k == 0x800 || 0x801 + 3 * count <= k <= 0x802 + 3 * count))
              ==> dspm[k] == old(dspm[k])
  {
    count' := count;
    if count < MAX_ENTRIES {
      SlotsFit(count, count);
      ghost var before := dspm[..];
      dspm[Slot(count)] := record.0;
      dspm[Slot(count) + 1] := record.1;
      count' := count + 1;
      dspm[LOG_BASE] := count';
      OneMore(before, all, record, dspm[..]);
    } else {
      assert Kept(all + [record]) == Kept(all);
    }
  }

  predicate AllValid(reports: seq<Report>) { forall i :: 0 <= i < |reports| ==> reports[i].Valid() }

  function AllSeen(reports: seq<Report>): (rows: seq<Report>)
    ensures |rows| == |reports|
  {
    seq(|reports|, i requires 0 <= i < |reports| => Seen(reports[i]))
  }

  /** The host's dump of the log, row by row, whatever the log holds; of a log of reports, what it sees of them. */
  method Dump(dspm: array<nat>, ghost reports: seq<Report>) returns (rows: seq<Report>)
    requires dspm.Length == DSPM_WORDS
    ensures |rows| == Min(dspm[0x800], 10000)
    ensures forall i :: 0 <= i < |rows| ==> rows[i] == Decode(dspm[0x801 + 3 * i], dspm[0x802 + 3 * i])
    ensures Holds(dspm[..], AllPacked(reports)) && AllValid(reports) ==> rows == AllSeen(reports)
  {
    var entries := dspm[LOG_BASE];
    if entries > MAX_ENTRIES {
      entries := MAX_ENTRIES;
    }
    rows := [];
    for i := 0 to entries
      invariant |rows| == i
      invariant forall k :: 0 <= k < i ==> rows[k] == Decode(dspm[Slot(k)], dspm[Slot(k) + 1])
    {
      SlotsFit(i, i);
      var w0, w1 := dspm[Slot(i)], dspm[Slot(i) + 1];
      rows := rows + [Decode(w0, w1)];
    }
    if Holds(dspm[..], AllPacked(reports)) && AllValid(reports) {
      forall i | 0 <= i < |rows| ensures rows[i] == AllSeen(reports)[i] {
        RoundTrip(reports[i]);
      }
    }
  }
}
