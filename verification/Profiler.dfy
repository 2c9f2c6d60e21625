/** The profiling firmware: it polls an entry counter and an exit counter that another core advances,
    takes a snapshot at every entry and a record at every exit. */
module Profiler {
  import opened Machine32

  const METRICS: nat := 9
  const TWO31N: nat := 0x8000_0000

  /** The nine metrics at one moment, cycles first; the true counts, unbounded. */
  type Sample = s: seq<nat> | |s| == METRICS witness [0, 0, 0, 0, 0, 0, 0, 0, 0]

  /** One turn of the polling loop: how many milestone events there had been when it read the entry
      counter and when it read the exit counter, and the metrics as it would find them after each. */
  datatype Turn = Turn(n0: nat, n1: nat, onEntry: Sample, onExit: Sample)

  /** Of `n` events the first is an entry, the second an exit, and so on. */
  function Entries(n: nat): nat { (n + 1) / 2 }

  function Exits(n: nat): nat { n / 2 }

  // ---- what the registers show ----

  /** mcycle has 32 bits, the event counters 31. */
  function Shown(s: Sample): (r: Sample)
    ensures forall j :: 0 <= j < METRICS ==> r[j] == if j == 0 then U32(s[j]) else s[j] % TWO31N
  {
    seq(METRICS, j requires 0 <= j < METRICS => if j == 0 then U32(s[j]) else s[j] % TWO31N)
  }

  function Deltas(now: Sample, snap: Sample): (r: Sample)
    ensures forall j :: 0 <= j < METRICS ==> r[j] == U32(now[j] as int - snap[j] as int)
  {
    seq(METRICS, j requires 0 <= j < METRICS => U32(now[j] as int - snap[j] as int))
  }

  function Sums(a: Sample, b: Sample): (r: Sample)
    ensures forall j :: 0 <= j < METRICS ==> r[j] == U32(a[j] + b[j])
  {
    seq(METRICS, j requires 0 <= j < METRICS => U32(a[j] + b[j]))
  }

  // ---- the log, in words from its base ----

  const CALL_COUNT: nat := 0
  const STATE: nat := 1
  const TOTALS: nat := 2
  const RECORDS: nat := 32
  const MAX_RECORDS: nat := 1000
  const LOG_WORDS: nat := 9032

  type Log = m: seq<nat> | |m| == LOG_WORDS ghost witness seq(LOG_WORDS, i => 0)

  function RecordAt(k: nat): (w: nat)
    requires k < MAX_RECORDS
    ensures RECORDS <= w && w + METRICS <= LOG_WORDS
  {
    RECORDS + k * METRICS
  }

  /** The log after nine words are written at `w`. */
  function Store9(m: Log, w: nat, s: Sample): (r: Log)
    requires w + METRICS <= LOG_WORDS
    ensures Nine(r, w) == s
    ensures forall k :: 0 <= k < LOG_WORDS && !(w <= k < w + METRICS) ==> r[k] == m[k]
  {
    m[..w] + s + m[w + METRICS..]
  }

  function Nine(m: Log, w: nat): Sample
    requires w + METRICS <= LOG_WORDS
  {
    m[w..w + METRICS]
  }

  // ---- the firmware's state and one turn of its loop ----

  datatype State = State(prevEntry: nat, prevExit: nat, snap: Sample, totals: Sample, calls: nat, log: Log)

  const NONE: Sample := [0, 0, 0, 0, 0, 0, 0, 0, 0]

  /** The log area has been cleared and the counters set to zero. */
  function Start(): State { State(0, 0, NONE, NONE, 0, seq(LOG_WORDS, i => 0)) }

  function OnEntry(s: State, t: Turn): State
  {
    if Entries(t.n0) % TWO31N == s.prevEntry then s
    else s.(snap := Shown(t.onEntry), log := s.log[STATE := 1], prevEntry := Entries(t.n0) % TWO31N)
  }

  /** Totals always; a record while there is room; the new count; and "waiting for an entry". */
  function LogCall(log: Log, calls: nat, totals: Sample, d: Sample): Log
  {
    var log1 := Store9(log, TOTALS, totals);
    var log2 := if calls < MAX_RECORDS then Store9(log1, RecordAt(calls), d) else log1;
    log2[CALL_COUNT := U32(calls + 1)][STATE := 0]
  }

  function OnExit(s: State, t: Turn): State
  {
    if Exits(t.n1) % TWO31N == s.prevExit then s
    else
      var d := Deltas(Shown(t.onExit), s.snap);
      var totals := Sums(s.totals, d);
      State(s.prevEntry, Exits(t.n1) % TWO31N, s.snap, totals, U32(s.calls + 1), LogCall(s.log, s.calls, totals, d))
  }

  function Run(ts: seq<Turn>, i: nat): State
    requires i <= |ts|
  {
    if i == 0 then Start()
    else var s := Run(ts, i - 1); OnExit(OnEntry(s, ts[i - 1]), ts[i - 1])
  }

  // ---- what really happened ----

  /** Events counted at the entry read and at the exit read of the turn before `i`. */
  function N0(ts: seq<Turn>, i: nat): nat
    requires i <= |ts|
  {
    if i == 0 then 0 else ts[i - 1].n0
  }

  function N1(ts: seq<Turn>, i: nat): nat
    requires i <= |ts|
  {
    if i == 0 then 0 else ts[i - 1].n1
  }

  /** Event counts never decrease, in the order in which they are read. */
  ghost predicate Rising(ts: seq<Turn>)
  {
    forall i :: 0 <= i < |ts| ==> RisingAt(ts, i)
  }

  predicate RisingAt(ts: seq<Turn>, i: nat)
    requires i < |ts|
  {
    N1(ts, i) <= ts[i].n0 <= ts[i].n1
  }

  /** At most one exit between one exit read and the next. */
  predicate ExitSeen(ts: seq<Turn>, i: nat)
    requires i < |ts|
  {
    Exits(ts[i].n1) <= Exits(N1(ts, i)) + 1
  }

  predicate EntrySeen(ts: seq<Turn>, i: nat)
    requires i < |ts|
  {
    Entries(ts[i].n0) <= Entries(N0(ts, i)) + 1
  }

  ghost predicate ExitsSeen(ts: seq<Turn>, n: nat)
    requires n <= |ts|
  {
    forall i :: 0 <= i < n ==> ExitSeen(ts, i)
  }

  ghost predicate EntriesSeen(ts: seq<Turn>, n: nat)
    requires n <= |ts|
  {
    forall i :: 0 <= i < n ==> EntrySeen(ts, i)
  }

  /** At most one event between one entry read and the next. */
  ghost predicate Paced(ts: seq<Turn>)
  {
    forall i :: 0 <= i < |ts| ==> PacedAt(ts, i)
  }

  predicate PacedAt(ts: seq<Turn>, i: nat)
    requires i < |ts|
  {
    RisingAt(ts, i) && ts[i].n0 <= N0(ts, i) + 1 && ts[i].n1 <= ts[i].n0 + 1
  }

  lemma PacedSeesAll(ts: seq<Turn>)
    requires Paced(ts)
    ensures Rising(ts) && ExitsSeen(ts, |ts|) && EntriesSeen(ts, |ts|)
  {
    forall i | 0 <= i < |ts| ensures RisingAt(ts, i) && ExitSeen(ts, i) && EntrySeen(ts, i) {
      assert PacedAt(ts, i);
      assert i > 0 ==> PacedAt(ts, i - 1);
    }
  }

  predicate EntryReadPast(ts: seq<Turn>, e: nat, i: nat)
    requires i < |ts|
  {
    ts[i].n0 > e
  }

  predicate ExitReadPast(ts: seq<Turn>, e: nat, i: nat)
    requires i < |ts|
  {
    ts[i].n1 > e
  }

  /** The first turn from `i` on whose entry read counts more than `e` events. */
  function SeenFirst(ts: seq<Turn>, e: nat, i: nat): (r: nat)
    requires i <= |ts|
    ensures i <= r <= |ts| && (r < |ts| ==> ts[r].n0 > e) && forall j :: i <= j < r ==> !EntryReadPast(ts, e, j)
    decreases |ts| - i
  {
    if i == |ts| || ts[i].n0 > e then i else SeenFirst(ts, e, i + 1)
  }

  function SeenLast(ts: seq<Turn>, e: nat, i: nat): (r: nat)
    requires i <= |ts|
    ensures i <= r <= |ts| && (r < |ts| ==> ts[r].n1 > e) && forall j :: i <= j < r ==> !ExitReadPast(ts, e, j)
    decreases |ts| - i
  {
    if i == |ts| || ts[i].n1 > e then i else SeenLast(ts, e, i + 1)
  }

  /** The turns that first see the entry and the exit of call `k`: events 2k and 2k + 1. */
  function EntryTurn(ts: seq<Turn>, k: nat): nat { SeenFirst(ts, 2 * k, 0) }

  function ExitTurn(ts: seq<Turn>, k: nat): nat { SeenLast(ts, 2 * k + 1, 0) }

  /** What call `k` cost, from the turn that saw its entry to the turn that saw its exit. */
  function Cost(ts: seq<Turn>, k: nat): Sample
  {
    if EntryTurn(ts, k) >= |ts| || ExitTurn(ts, k) >= |ts| then NONE
    else Deltas(Shown(ts[ExitTurn(ts, k)].onExit), Shown(ts[EntryTurn(ts, k)].onEntry))
  }

  /** The latest turn before `i` whose entry read counted a new entry, or |ts|: there the snapshot was
      taken that the firmware holds after `i` turns. */
  function SnapTurn(ts: seq<Turn>, i: nat): (r: nat)
    requires i <= |ts|
    ensures r < i || r == |ts|
  {
    if i == 0 then |ts|
    else if Entries(ts[i - 1].n0) != Entries(N0(ts, i - 1)) then i - 1
    else SnapTurn(ts, i - 1)
  }

  function Snap(ts: seq<Turn>, i: nat): Sample
    requires i <= |ts|
  {
    if SnapTurn(ts, i) < |ts| then Shown(ts[SnapTurn(ts, i)].onEntry) else NONE
  }

  /** What the firmware logs for call `k`: from its snapshot to the turn that saw the exit. */
  function Logged(ts: seq<Turn>, k: nat): Sample
  {
    var q := ExitTurn(ts, k);
    if q >= |ts| then NONE else Deltas(Shown(ts[q].onExit), Snap(ts, q + 1))
  }

  /** The state word: 1 from an entry tick to the next exit tick. */
  function Inside(ts: seq<Turn>, i: nat): nat
    requires i <= |ts|
  {
    if i == 0 || Exits(ts[i - 1].n1) != Exits(N1(ts, i - 1)) then 0
    else if Entries(ts[i - 1].n0) != Entries(N0(ts, i - 1)) then 1
    else Inside(ts, i - 1)
  }

  // ---- what the firmware knows after `i` turns ----

  lemma {:induction false} SeenFirstIs(ts: seq<Turn>, e: nat, i: nat, r: nat)
    requires i <= r < |ts| && ts[r].n0 > e && forall j :: i <= j < r ==> ts[j].n0 <= e
    ensures SeenFirst(ts, e, i) == r
    decreases r - i
  {
    if i < r {
      SeenFirstIs(ts, e, i + 1, r);
    }
  }

  lemma {:induction false} SeenLastIs(ts: seq<Turn>, e: nat, i: nat, r: nat)
    requires i <= r < |ts| && ts[r].n1 > e && forall j :: i <= j < r ==> ts[j].n1 <= e
    ensures SeenLast(ts, e, i) == r
    decreases r - i
  {
    if i < r {
      SeenLastIs(ts, e, i + 1, r);
    }
  }

  /** Event counts never decrease. */
  lemma {:induction false} CountsGrow(ts: seq<Turn>, i: nat, j: nat)
    requires Rising(ts) && i <= j <= |ts|
    ensures N0(ts, i) <= N0(ts, j) <= N1(ts, j) && N1(ts, i) <= N1(ts, j)
    decreases j - i
  {
    if i < j {
      CountsGrow(ts, i, j - 1);
      assert RisingAt(ts, j - 1);
    } else if j > 0 {
      assert RisingAt(ts, j - 1);
    }
  }

  lemma EntrySeenAt(ts: seq<Turn>, e: nat, i: nat)
    requires Rising(ts) && i < |ts| && N0(ts, i) <= e < ts[i].n0
    ensures SeenFirst(ts, e, 0) == i
  {
    forall j | 0 <= j < i ensures ts[j].n0 <= e {
      CountsGrow(ts, j + 1, i);
    }
    SeenFirstIs(ts, e, 0, i);
  }

  lemma ExitSeenAt(ts: seq<Turn>, e: nat, i: nat)
    requires Rising(ts) && i < |ts| && N1(ts, i) <= e < ts[i].n1
    ensures SeenLast(ts, e, 0) == i
  {
    forall j | 0 <= j < i ensures ts[j].n1 <= e {
      CountsGrow(ts, j + 1, i);
    }
    SeenLastIs(ts, e, 0, i);
  }

  /** Counts that differ by less than 2^31 may be compared modulo 2^31. */
  lemma OneStep(a: nat, b: nat)
    requires a <= b < a + TWO31N
    ensures a % TWO31N == b % TWO31N <==> a == b
  {
  }

  /** While every exit is seen, at most three entries pass between entry reads. */
  lemma FewEntries(ts: seq<Turn>, i: nat)
    requires Rising(ts) && i < |ts| && ExitsSeen(ts, i + 1)
    ensures Entries(N0(ts, i)) <= Entries(ts[i].n0) <= Entries(N0(ts, i)) + 3
  {
    assert RisingAt(ts, i) && ExitSeen(ts, i);
    if i > 0 {
      assert RisingAt(ts, i - 1) && ExitSeen(ts, i - 1);
    }
  }

  /** The snapshot held is the one taken at the first turn that saw the latest entry. */
  lemma {:induction false} SnapIsLatest(ts: seq<Turn>, i: nat)
    requires Rising(ts) && i <= |ts|
    ensures var e := Entries(N0(ts, i)); SnapTurn(ts, i) == if e == 0 then |ts| else EntryTurn(ts, e - 1)
    decreases i
  {
    if i > 0 {
      assert RisingAt(ts, i - 1);
      CountsGrow(ts, i - 1, i);
      var e := Entries(N0(ts, i));
      if e != Entries(N0(ts, i - 1)) {
        EntrySeenAt(ts, 2 * (e - 1), i - 1);
      } else {
        SnapIsLatest(ts, i - 1);
      }
    }
  }

  function Total(cost: nat -> int, n: nat): int
  {
    if n == 0 then 0 else Total(cost, n - 1) + cost(n - 1)
  }

  /** Calls and what each cost. */
  type Costs = nat -> Sample

  function Metric(costs: Costs, j: nat): nat -> int
    requires j < METRICS
  {
    (k: nat) => costs(k)[j]
  }

  /** The exact sum of one metric over the first `n` calls. */
  function Sum(costs: Costs, j: nat, n: nat): int
    requires j < METRICS
  {
    Total(Metric(costs, j), n)
  }

  function LoggedBy(ts: seq<Turn>): Costs { (k: nat) => Logged(ts, k) }

  ghost predicate Recorded(log: Log, costs: Costs, n: nat)
  {
    forall k :: 0 <= k < n && k < MAX_RECORDS ==> RecordIs(log, costs, k)
  }

  predicate RecordIs(log: Log, costs: Costs, k: nat)
    requires k < MAX_RECORDS
  {
    Nine(log, RecordAt(k)) == costs(k)
  }

  ghost predicate Totalled(totals: Sample, costs: Costs, n: nat)
  {
    forall j :: 0 <= j < METRICS ==> TotalIs(totals, costs, n, j)
  }

  predicate TotalIs(totals: Sample, costs: Costs, n: nat, j: nat)
    requires j < METRICS
  {
    totals[j] == U32(Sum(costs, j, n))
  }

  /** The state after an entry read that counted `a` events and an exit read that counted `b`, with those
      costs, that snapshot and that state word. */
  ghost predicate Knows(s: State, costs: Costs, a: nat, b: nat, snap: Sample, inside: nat)
  {
    s.prevEntry == Entries(a) % TWO31N && s.prevExit == Exits(b) % TWO31N && s.calls == U32(Exits(b))
    && s.snap == snap && Totalled(s.totals, costs, Exits(b)) && Recorded(s.log, costs, Exits(b))
    && s.log[CALL_COUNT] == s.calls && Nine(s.log, TOTALS) == s.totals && s.log[STATE] == inside
  }

  // ---- one record more ----

  lemma RecordsKept(log: Log, log': Log, costs: Costs, n: nat)
    requires Recorded(log, costs, n) && forall k :: RECORDS <= k < LOG_WORDS ==> log'[k] == log[k]
    ensures Recorded(log', costs, n)
  {
    forall k | 0 <= k < n && k < MAX_RECORDS ensures RecordIs(log', costs, k) {
      assert RecordIs(log, costs, k);
      SameNine(log, log', RecordAt(k));
    }
  }

  lemma SameNine(log: Log, log': Log, w: nat)
    requires w + METRICS <= LOG_WORDS && forall k :: w <= k < w + METRICS ==> log'[k] == log[k]
    ensures Nine(log', w) == Nine(log, w)
  {
  }

  lemma TotalsGrow(totals: Sample, costs: Costs, k: nat, sums: Sample)
    requires Totalled(totals, costs, k) && sums == Sums(totals, costs(k))
    ensures Totalled(sums, costs, k + 1)
  {
    var m := k + 1;
    forall j | 0 <= j < METRICS ensures TotalIs(sums, costs, m, j) {
      assert TotalIs(totals, costs, k, j);
      SumNext(costs, j, k);
      TotalGrows(totals[j], Sum(costs, j, k), costs(k)[j], Sum(costs, j, k + 1));
    }
  }

  lemma SumNext(costs: Costs, j: nat, k: nat)
    requires j < METRICS
    ensures Sum(costs, j, k + 1) == Sum(costs, j, k) + costs(k)[j]
  {
  }

  lemma TotalGrows(total: nat, sum: int, c: nat, sum': int)
    requires total == U32(sum) && sum' == sum + c
    ensures U32(total + c) == U32(sum')
  {
    AddWrapped(sum, c);
  }

  lemma AddWrapped(x: int, y: nat)
    ensures U32(U32(x) + y) == U32(x + y)
  {
  }

  lemma LogGrows(log: Log, costs: Costs, k: nat, totals: Sample, log': Log)
    requires Recorded(log, costs, k) && k < TWO32 && log' == LogCall(log, k, totals, costs(k))
    ensures Recorded(log', costs, k + 1)
    ensures log'[CALL_COUNT] == U32(k + 1) && log'[STATE] == 0 && Nine(log', TOTALS) == totals
  {
    var log1 := Store9(log, TOTALS, totals);
    RecordsKept(log, log1, costs, k);
    var log2 := if k < MAX_RECORDS then Store9(log1, RecordAt(k), costs(k)) else log1;
    SameNine(log1, log2, TOTALS);
    OneMoreRecord(log1, costs, k, log2);
    RecordsKept(log2, log', costs, k + 1);
    SameNine(log2, log', TOTALS);
  }

  lemma OneMoreRecord(log: Log, costs: Costs, k: nat, log': Log)
    requires Recorded(log, costs, k)
    requires log' == if k < MAX_RECORDS then Store9(log, RecordAt(k), costs(k)) else log
    ensures Recorded(log', costs, k + 1)
  {
    forall x | 0 <= x < k + 1 && x < MAX_RECORDS ensures RecordIs(log', costs, x) {
      if x < k {
        assert RecordIs(log, costs, x);
        if k < MAX_RECORDS {
          StoreKeeps(log, RecordAt(k), costs(k), RecordAt(x));
        }
      }
    }
  }

  lemma StoreKeeps(log: Log, w: nat, s: Sample, x: nat)
    requires x + METRICS <= w && w + METRICS <= LOG_WORDS
    ensures Nine(Store9(log, w, s), x) == Nine(log, x)
  {
  }

  /** From `s` to `s'` a call of cost `d` is logged, and exit count `x` remembered. */
  predicate Exited(s: State, s': State, x: nat, d: Sample)
  {
    s'.prevEntry == s.prevEntry && s'.prevExit == x && s'.snap == s.snap && s'.calls == U32(s.calls + 1)
    && s'.totals == Sums(s.totals, d) && s'.log == LogCall(s.log, s.calls, s'.totals, d)
  }

  lemma ExitTaken(s: State, t: Turn)
    requires s.prevExit != Exits(t.n1) % TWO31N
    ensures Exited(s, OnExit(s, t), Exits(t.n1) % TWO31N, Deltas(Shown(t.onExit), s.snap))
  {
  }

  lemma KnowsMore(s: State, costs: Costs, a: nat, b: nat, n: nat, snap: Sample, inside: nat, s': State)
    requires Knows(s, costs, a, b, snap, inside) && Exits(n) == Exits(b) + 1 < TWO32
    requires Exited(s, s', Exits(n) % TWO31N, costs(Exits(b)))
    ensures Knows(s', costs, a, n, snap, 0)
  {
    var k := Exits(b);
    Small(k);
    TotalsGrow(s.totals, costs, k, s'.totals);
    LogGrows(s.log, costs, k, s'.totals, s'.log);
  }

  lemma Small(k: nat)
    requires k + 1 < TWO32
    ensures U32(k) == k && U32(k + 1) == k + 1
  {
  }

  // ---- one turn ----

  lemma StartKnows(costs: Costs)
    ensures Knows(Start(), costs, 0, 0, NONE, 0)
  {
    var log := Start().log;
    assert Nine(log, TOTALS) == NONE;
    forall j | 0 <= j < METRICS ensures TotalIs(NONE, costs, 0, j) {
      assert Sum(costs, j, 0) == 0;
    }
  }

  lemma EntryStep(s: State, ts: seq<Turn>, i: nat)
    requires Rising(ts) && i < |ts| && ExitsSeen(ts, i + 1)
    requires Knows(s, LoggedBy(ts), N0(ts, i), N1(ts, i), Snap(ts, i), Inside(ts, i))
    ensures Knows(OnEntry(s, ts[i]), LoggedBy(ts), ts[i].n0, N1(ts, i), Snap(ts, i + 1),
                  if Entries(ts[i].n0) != Entries(N0(ts, i)) then 1 else Inside(ts, i))
  {
    FewEntries(ts, i);
    OneStep(Entries(N0(ts, i)), Entries(ts[i].n0));
    StateWord(s.log);
    RecordsKept(s.log, s.log[STATE := 1], LoggedBy(ts), Exits(N1(ts, i)));
  }

  lemma StateWord(log: Log)
    ensures Nine(log[STATE := 1], TOTALS) == Nine(log, TOTALS)
  {
  }

  /** The exit seen in turn `i` is that of the next call. */
  lemma ExitTurnIs(ts: seq<Turn>, i: nat)
    requires Rising(ts) && i < |ts| && Exits(ts[i].n1) != Exits(N1(ts, i))
    ensures ExitTurn(ts, Exits(N1(ts, i))) == i
  {
    assert RisingAt(ts, i);
    var k := Exits(N1(ts, i));
    assert N1(ts, i) <= 2 * k + 1 < ts[i].n1;
    ExitSeenAt(ts, 2 * k + 1, i);
  }

  lemma KnowsSame(s: State, costs: Costs, t: Turn, a: nat, b: nat, snap: Sample, inside: nat)
    requires Knows(s, costs, a, b, snap, inside) && Exits(t.n1) == Exits(b)
    ensures OnExit(s, t) == s && Knows(s, costs, a, t.n1, snap, inside)
  {
  }

  lemma ExitStep(s: State, ts: seq<Turn>, i: nat, inside: nat)
    requires Rising(ts) && i < |ts| && ExitSeen(ts, i) && Exits(ts[i].n1) < TWO32
    requires Knows(s, LoggedBy(ts), ts[i].n0, N1(ts, i), Snap(ts, i + 1), inside)
    ensures Knows(OnExit(s, ts[i]), LoggedBy(ts), ts[i].n0, ts[i].n1, Snap(ts, i + 1),
                  if Exits(ts[i].n1) != Exits(N1(ts, i)) then 0 else inside)
  {
    var t, b, snap := ts[i], N1(ts, i), Snap(ts, i + 1);
    assert RisingAt(ts, i);
    if Exits(t.n1) != Exits(b) {
      ExitTurnIs(ts, i);
      assert LoggedBy(ts)(Exits(b)) == Logged(ts, Exits(b));
      OneStep(Exits(b), Exits(t.n1));
      ExitTaken(s, t);
      KnowsMore(s, LoggedBy(ts), t.n0, b, t.n1, snap, inside, OnExit(s, t));
    } else {
      KnowsSame(s, LoggedBy(ts), t, t.n0, b, snap, inside);
    }
  }

  /** After any run that sees every exit: the count is the number of exits, record k is what was logged
      for call k, the totals are the sums modulo 2^32, and the state word tells the latest tick. */
  lemma {:induction false} RunKnows(ts: seq<Turn>, i: nat)
    requires Rising(ts) && i <= |ts| && ExitsSeen(ts, i) && Exits(N1(ts, i)) < TWO32
    ensures Knows(Run(ts, i), LoggedBy(ts), N0(ts, i), N1(ts, i), Snap(ts, i), Inside(ts, i))
    decreases i
  {
    if i == 0 {
      StartKnows(LoggedBy(ts));
    } else {
      CountsGrow(ts, i - 1, i);
      RunKnows(ts, i - 1);
      EntryStep(Run(ts, i - 1), ts, i - 1);
      assert ExitSeen(ts, i - 1);
      ExitStep(OnEntry(Run(ts, i - 1), ts[i - 1]), ts, i - 1,
               if Entries(ts[i - 1].n0) != Entries(N0(ts, i - 1)) then 1 else Inside(ts, i - 1));
    }
  }

  // ---- which records are right ----

  /** What is logged for call k is what it cost. */
  predicate OwnCost(ts: seq<Turn>, k: nat) { Logged(ts, k) == Cost(ts, k) }

  /** It is when the snapshot is that of the turn that first saw entry k. */
  lemma OwnSnapshot(ts: seq<Turn>, k: nat)
    requires ExitTurn(ts, k) < |ts| && SnapTurn(ts, ExitTurn(ts, k) + 1) == EntryTurn(ts, k) < |ts|
    ensures OwnCost(ts, k)
  {
  }

  /** The snapshot under record k is that of call e - 1, where e entries had been counted when exit k
      was seen. */
  lemma RecordNames(ts: seq<Turn>, k: nat)
    requires Rising(ts) && ExitTurn(ts, k) < |ts|
    ensures var e := Entries(ts[ExitTurn(ts, k)].n0);
      SnapTurn(ts, ExitTurn(ts, k) + 1) == if e == 0 then |ts| else EntryTurn(ts, e - 1)
  {
    SnapIsLatest(ts, ExitTurn(ts, k) + 1);
  }

  /** It is the snapshot of the turn that first saw entry k exactly when entry k had been counted by then
      and entry k + 1 had not, or when one turn saw them both. */
  lemma RecordIsOwn(ts: seq<Turn>, k: nat)
    requires Rising(ts) && ExitTurn(ts, k) < |ts|
    ensures var q := ExitTurn(ts, k);
      SnapTurn(ts, q + 1) == EntryTurn(ts, k) < |ts|
      <==> Entries(ts[q].n0) == k + 1 || EntryTurn(ts, k) == q
  {
    var q := ExitTurn(ts, k);
    var e := Entries(ts[q].n0);
    RecordNames(ts, k);
    if e > k + 1 {
      EntryOrder(ts, k, q);
    } else if e == k + 1 {
      SeenBy(ts, k, q);
    } else {
      NotSeenBy(ts, k, q);
    }
  }

  lemma SeenBy(ts: seq<Turn>, k: nat, q: nat)
    requires q < |ts| && Entries(ts[q].n0) >= k + 1
    ensures EntryTurn(ts, k) <= q
  {
    assert EntryReadPast(ts, 2 * k, q);
  }

  lemma NotSeenBy(ts: seq<Turn>, k: nat, q: nat)
    requires Rising(ts) && q < |ts| && Entries(ts[q].n0) <= k
    ensures EntryTurn(ts, k) > q
  {
    var r := EntryTurn(ts, k);
    if r <= q {
      CountsGrow(ts, r + 1, q + 1);
    }
  }

  /** Where entry k + 1 has been seen too, the latest entry's turn is entry k's only if it is exit k's. */
  lemma EntryOrder(ts: seq<Turn>, k: nat, q: nat)
    requires Rising(ts) && q == ExitTurn(ts, k) < |ts| && Entries(ts[q].n0) > k + 1
    ensures EntryTurn(ts, k) <= q
    ensures EntryTurn(ts, Entries(ts[q].n0) - 1) == EntryTurn(ts, k) ==> EntryTurn(ts, k) == q
    ensures EntryTurn(ts, k) == q ==> EntryTurn(ts, Entries(ts[q].n0) - 1) == q
  {
    var r, e := EntryTurn(ts, k), Entries(ts[q].n0);
    var p := EntryTurn(ts, e - 1);
    assert EntryReadPast(ts, 2 * (e - 1), q) && EntryReadPast(ts, 2 * k, q);
    assert p < q ==> EntryReadPast(ts, 2 * k, p);
    if r < q {
      assert !ExitReadPast(ts, 2 * k + 1, q - 1);
      CountsGrow(ts, r + 1, q);
      assert RisingAt(ts, q);
      assert q > 0 && ts[q - 1].n1 <= 2 * k + 1;
      assert ts[r].n0 <= 2 * k + 1;
    }
  }

  /** In a paced run every record is its own call's cost. */
  lemma PacedCost(ts: seq<Turn>, k: nat)
    requires Paced(ts) && ExitTurn(ts, k) < |ts|
    ensures OwnCost(ts, k)
  {
    var q := ExitTurn(ts, k);
    PacedSeesAll(ts);
    PacedExit(ts, k, q);
    SeenBy(ts, k, q);
    RecordNames(ts, k);
    OwnSnapshot(ts, k);
  }

  lemma PacedExit(ts: seq<Turn>, k: nat, q: nat)
    requires Paced(ts) && q == ExitTurn(ts, k) < |ts|
    ensures Entries(ts[q].n0) == k + 1
  {
    assert PacedAt(ts, q);
    assert q > 0 ==> PacedAt(ts, q - 1) && !ExitReadPast(ts, 2 * k + 1, q - 1);
  }

  /** And the state word says whether a call is open. */
  lemma {:induction false} PacedState(ts: seq<Turn>, i: nat)
    requires Paced(ts) && i <= |ts|
    ensures Inside(ts, i) == Entries(N0(ts, i)) - Exits(N1(ts, i))
    decreases i
  {
    if i > 0 {
      PacedState(ts, i - 1);
      TurnCounts(ts, i - 1);
    }
  }

  ghost predicate AllOwn(ts: seq<Turn>, n: nat)
  {
    forall k :: 0 <= k < n ==> OwnCost(ts, k)
  }

  lemma PacedCosts(ts: seq<Turn>, i: nat)
    requires Paced(ts) && i <= |ts|
    ensures AllOwn(ts, Exits(N1(ts, i)))
  {
    forall k | 0 <= k < Exits(N1(ts, i)) ensures OwnCost(ts, k) {
      ExitIsSeen(ts, k, i);
      PacedCost(ts, k);
    }
  }

  /** After any paced run: call_count is the number of exits, record k is what call k cost between the
      turns that saw its entry and its exit, the totals are the sums modulo 2^32. */
  lemma PacedRun(ts: seq<Turn>, i: nat)
    requires Paced(ts) && i <= |ts| && Exits(N1(ts, i)) < TWO32
    ensures var s, n := Run(ts, i), Exits(N1(ts, i));
      s.log[CALL_COUNT] == s.calls == n && s.log[STATE] == Entries(N0(ts, i)) - n
      && Nine(s.log, TOTALS) == s.totals && Totalled(s.totals, LoggedBy(ts), n)
      && Recorded(s.log, LoggedBy(ts), n) && AllOwn(ts, n)
  {
    PacedSeesAll(ts);
    RunKnows(ts, i);
    PacedState(ts, i);
    PacedCosts(ts, i);
    Unwrapped(Exits(N1(ts, i)), TWO32);
  }

  lemma ExitIsSeen(ts: seq<Turn>, k: nat, i: nat)
    requires i <= |ts| && k < Exits(N1(ts, i))
    ensures ExitTurn(ts, k) < i
  {
    assert ExitReadPast(ts, 2 * k + 1, i - 1);
  }

  // ---- the ticks the firmware sees ----

  datatype Tick = EntryTick | ExitTick

  function Ticks(ts: seq<Turn>, i: nat): seq<Tick>
    requires i <= |ts|
  {
    if i == 0 then []
    else Ticks(ts, i - 1) + TurnTicks(Run(ts, i - 1), ts[i - 1])
  }

  function TurnTicks(s: State, t: Turn): seq<Tick>
  {
    (if Entries(t.n0) % TWO31N != s.prevEntry then [EntryTick] else [])
    + (if Exits(t.n1) % TWO31N != s.prevExit then [ExitTick] else [])
  }

  predicate Alternating(ks: seq<Tick>)
  {
    forall j :: 0 <= j < |ks| ==> ks[j] == if j % 2 == 0 then EntryTick else ExitTick
  }

  lemma {:induction false} RemembersCounts(ts: seq<Turn>, i: nat)
    requires i <= |ts|
    ensures Run(ts, i).prevEntry == Entries(N0(ts, i)) % TWO31N && Run(ts, i).prevExit == Exits(N1(ts, i)) % TWO31N
    decreases i
  {
    if i > 0 {
      RemembersCounts(ts, i - 1);
    }
  }

  /** The ticks there should be: one whenever a count stepped. */
  function Steps(ts: seq<Turn>, i: nat): seq<Tick>
    requires i <= |ts|
  {
    if i == 0 then []
    else
      Steps(ts, i - 1)
      + ((if Entries(N0(ts, i)) != Entries(N0(ts, i - 1)) then [EntryTick] else [])
         + (if Exits(N1(ts, i)) != Exits(N1(ts, i - 1)) then [ExitTick] else []))
  }

  lemma {:induction false} TicksAreSteps(ts: seq<Turn>, i: nat)
    requires Paced(ts) && i <= |ts|
    ensures Ticks(ts, i) == Steps(ts, i)
    decreases i
  {
    if i > 0 {
      TicksAreSteps(ts, i - 1);
      TicksWhenStepped(ts, i - 1);
    }
  }

  lemma TicksWhenStepped(ts: seq<Turn>, i: nat)
    requires Paced(ts) && i < |ts|
    ensures Entries(ts[i].n0) % TWO31N != Run(ts, i).prevEntry <==> Entries(ts[i].n0) != Entries(N0(ts, i))
    ensures Exits(ts[i].n1) % TWO31N != Run(ts, i).prevExit <==> Exits(ts[i].n1) != Exits(N1(ts, i))
  {
    RemembersCounts(ts, i);
    TurnCounts(ts, i);
    OneStep(Entries(N0(ts, i)), Entries(ts[i].n0));
    OneStep(Exits(N1(ts, i)), Exits(ts[i].n1));
  }

  lemma {:induction false} StepsAlternate(ts: seq<Turn>, i: nat)
    requires Paced(ts) && i <= |ts|
    ensures Alternating(Steps(ts, i)) && |Steps(ts, i)| == Entries(N0(ts, i)) + Exits(N1(ts, i))
    decreases i
  {
    if i > 0 {
      StepsAlternate(ts, i - 1);
      TurnCounts(ts, i - 1);
      AppendTicks(Steps(ts, i - 1), Entries(N0(ts, i - 1)), Exits(N1(ts, i - 1)), Entries(N0(ts, i)), Exits(N1(ts, i)));
    }
  }

  /** Ticks strictly alternate, entry first, and none is missed. */
  lemma TicksAlternate(ts: seq<Turn>, i: nat)
    requires Paced(ts) && i <= |ts|
    ensures Alternating(Ticks(ts, i)) && |Ticks(ts, i)| == Entries(N0(ts, i)) + Exits(N1(ts, i))
  {
    TicksAreSteps(ts, i);
    StepsAlternate(ts, i);
  }

  /** In one turn each count steps once at most: entries only with no call open, exits only with one. */
  lemma TurnCounts(ts: seq<Turn>, i: nat)
    requires Paced(ts) && i < |ts|
    ensures var e, x, e', x' := Entries(N0(ts, i)), Exits(N1(ts, i)), Entries(ts[i].n0), Exits(ts[i].n1);
      e <= e' <= e + 1 && x <= x' <= x + 1 && (e' == e + 1 ==> x == e) && (x' == x + 1 ==> e' == x + 1)
  {
    assert PacedAt(ts, i);
    assert i > 0 ==> PacedAt(ts, i - 1);
  }

  lemma AppendTicks(ks: seq<Tick>, e: nat, x: nat, e': nat, x': nat)
    requires Alternating(ks) && |ks| == e + x
    requires e <= e' <= e + 1 && x <= x' <= x + 1 && (e' == e + 1 ==> x == e) && (x' == x + 1 ==> e' == x + 1)
    ensures var all := ks + (if e' != e then [EntryTick] else []) + (if x' != x then [ExitTick] else []);
      Alternating(all) && |all| == e' + x'
  {
  }

  // ---- exactly when nothing is missed ----

  /** Exit ticks in the first `i` turns, by the firmware's comparison. */
  function ExitTicks(ts: seq<Turn>, i: nat): nat
    requires i <= |ts|
  {
    if i == 0 then 0
    else ExitTicks(ts, i - 1) + (if Exits(ts[i - 1].n1) % TWO31N != Exits(N1(ts, i - 1)) % TWO31N then 1 else 0)
  }

  function EntryTicks(ts: seq<Turn>, i: nat): nat
    requires i <= |ts|
  {
    if i == 0 then 0
    else EntryTicks(ts, i - 1) + (if Entries(ts[i - 1].n0) % TWO31N != Entries(N0(ts, i - 1)) % TWO31N then 1 else 0)
  }

  lemma TurnCalls(s: State, t: Turn)
    ensures OnExit(OnEntry(s, t), t).calls
      == if Exits(t.n1) % TWO31N == s.prevExit then s.calls else U32(s.calls + 1)
  {
    var s1 := OnEntry(s, t);
    assert s1.calls == s.calls && s1.prevExit == s.prevExit;
  }

  /** The call counter advances by one, in 32 bits, at an exit tick. */
  predicate AdvancesAt(calls: nat -> nat, ts: seq<Turn>, k: nat)
    requires k < |ts|
  {
    calls(k + 1) == if Exits(ts[k].n1) % TWO31N == Exits(N1(ts, k)) % TWO31N then calls(k) else U32(calls(k) + 1)
  }

  function Calls(ts: seq<Turn>): nat -> nat { (k: nat) => if k <= |ts| then Run(ts, k).calls else 0 }

  lemma CallsAt(ts: seq<Turn>, k: nat)
    requires k <= |ts|
    ensures Calls(ts)(k) == Run(ts, k).calls
  {
  }

  lemma RunNext(ts: seq<Turn>, k: nat)
    requires k < |ts|
    ensures Run(ts, k + 1) == OnExit(OnEntry(Run(ts, k), ts[k]), ts[k])
  {
  }

  lemma CallsAdvance(ts: seq<Turn>, k: nat, calls: nat -> nat)
    requires k < |ts| && calls == Calls(ts)
    ensures AdvancesAt(calls, ts, k)
  {
    RemembersCounts(ts, k);
    CallsAt(ts, k);
    CallsAt(ts, k + 1);
    RunNext(ts, k);
    AdvancesFrom(calls, ts, k, Run(ts, k), Run(ts, k + 1));
  }

  lemma AdvancesFrom(calls: nat -> nat, ts: seq<Turn>, k: nat, s: State, s': State)
    requires k < |ts| && s' == OnExit(OnEntry(s, ts[k]), ts[k]) && s.prevExit == Exits(N1(ts, k)) % TWO31N
    requires calls(k) == s.calls && calls(k + 1) == s'.calls
    ensures AdvancesAt(calls, ts, k)
  {
    TurnCalls(s, ts[k]);
  }

  lemma {:induction false} CountsTicks(calls: nat -> nat, ts: seq<Turn>, i: nat)
    requires i <= |ts| && calls(0) == 0 && forall k :: 0 <= k < i ==> AdvancesAt(calls, ts, k)
    ensures calls(i) == U32(ExitTicks(ts, i))
    decreases i
  {
    if i > 0 {
      CountsTicks(calls, ts, i - 1);
      assert AdvancesAt(calls, ts, i - 1);
      AddWrapped(ExitTicks(ts, i - 1), 1);
    }
  }

  lemma RunCountsTicks(ts: seq<Turn>, i: nat)
    requires i <= |ts|
    ensures Run(ts, i).calls == U32(ExitTicks(ts, i))
  {
    var calls := Calls(ts);
    forall k | 0 <= k < i ensures AdvancesAt(calls, ts, k) {
      CallsAdvance(ts, k, calls);
    }
    CallsAt(ts, 0);
    CallsAt(ts, i);
    CountsTicks(calls, ts, i);
  }

  lemma {:induction false} TicksCounted(ts: seq<Turn>, i: nat)
    requires i <= |ts|
    ensures |Ticks(ts, i)| == EntryTicks(ts, i) + ExitTicks(ts, i)
    decreases i
  {
    if i > 0 {
      TicksCounted(ts, i - 1);
      RemembersCounts(ts, i - 1);
      TurnTicksCounted(Run(ts, i - 1), ts[i - 1], N0(ts, i - 1), N1(ts, i - 1));
    }
  }

  lemma TurnTicksCounted(s: State, t: Turn, n0: nat, n1: nat)
    requires s.prevEntry == Entries(n0) % TWO31N && s.prevExit == Exits(n1) % TWO31N
    ensures |TurnTicks(s, t)| == (if Entries(t.n0) % TWO31N != Entries(n0) % TWO31N then 1 else 0)
                                 + (if Exits(t.n1) % TWO31N != Exits(n1) % TWO31N then 1 else 0)
  {
  }

  /** A tick stands for one step of a count, so none is missed exactly when no turn takes two. */
  lemma OneTick(a: nat, b: nat)
    requires a <= b
    ensures var tick := if b % TWO31N != a % TWO31N then 1 else 0; tick <= b - a && (tick == b - a <==> b <= a + 1)
  {
  }

  lemma {:induction false} ExitTicksMissed(ts: seq<Turn>, i: nat)
    requires Rising(ts) && i <= |ts|
    ensures ExitTicks(ts, i) <= Exits(N1(ts, i)) && (ExitTicks(ts, i) == Exits(N1(ts, i)) <==> ExitsSeen(ts, i))
    decreases i
  {
    if i > 0 {
      ExitTicksMissed(ts, i - 1);
      assert RisingAt(ts, i - 1);
      OneTick(Exits(N1(ts, i - 1)), Exits(ts[i - 1].n1));
      assert ExitsSeen(ts, i) <==> ExitsSeen(ts, i - 1) && ExitSeen(ts, i - 1);
    }
  }

  lemma {:induction false} EntryTicksMissed(ts: seq<Turn>, i: nat)
    requires Rising(ts) && i <= |ts|
    ensures EntryTicks(ts, i) <= Entries(N0(ts, i)) && (EntryTicks(ts, i) == Entries(N0(ts, i)) <==> EntriesSeen(ts, i))
    decreases i
  {
    if i > 0 {
      EntryTicksMissed(ts, i - 1);
      CountsGrow(ts, i - 1, i);
      OneTick(Entries(N0(ts, i - 1)), Entries(ts[i - 1].n0));
      assert EntriesSeen(ts, i) <==> EntriesSeen(ts, i - 1) && EntrySeen(ts, i - 1);
    }
  }

  /** The call count is the number of exits exactly when no turn has two exits to see. */
  lemma NoCallIsLost(ts: seq<Turn>, i: nat)
    requires Rising(ts) && i <= |ts| && Exits(N1(ts, i)) < TWO32
    ensures Run(ts, i).calls == Exits(N1(ts, i)) <==> ExitsSeen(ts, i)
  {
    RunCountsTicks(ts, i);
    ExitTicksMissed(ts, i);
    Unwrapped(ExitTicks(ts, i), TWO32);
  }

  /** No tick at all is missed exactly when no turn has two entries or two exits to see. */
  lemma NoTickIsMissed(ts: seq<Turn>, i: nat)
    requires Rising(ts) && i <= |ts|
    ensures |Ticks(ts, i)| == Entries(N0(ts, i)) + Exits(N1(ts, i)) <==> EntriesSeen(ts, i) && ExitsSeen(ts, i)
  {
    TicksCounted(ts, i);
    EntryTicksMissed(ts, i);
    ExitTicksMissed(ts, i);
  }

  /** Two whole calls between two entry reads are logged as one. */
  lemma FastCallsAreLost(x: Sample)
    ensures var ts := [Turn(4, 4, x, x)];
      !ExitsSeen(ts, 1) && Exits(N1(ts, 1)) == 2 && Run(ts, 1).calls == 1
  {
    var ts := [Turn(4, 4, x, x)];
    assert !ExitSeen(ts, 0);
    assert Run(ts, 1) == OnExit(OnEntry(Run(ts, 0), ts[0]), ts[0]);
  }

  // ---- totals against the counters' growth ----

  /** Metric `j` never decreases in the order the firmware would read it. */
  ghost predicate Monotone(ts: seq<Turn>, j: nat)
    requires j < METRICS
  {
    forall i :: 0 <= i < |ts| ==> RisesAt(ts, j, i)
  }

  predicate RisesAt(ts: seq<Turn>, j: nat, i: nat)
    requires j < METRICS && i < |ts|
  {
    ts[i].onEntry[j] <= ts[i].onExit[j] && (i > 0 ==> ts[i - 1].onExit[j] <= ts[i].onEntry[j])
  }

  /** Metric `j` stays below the width of its counter. */
  ghost predicate Narrow(ts: seq<Turn>, j: nat)
    requires j < METRICS
  {
    forall i :: 0 <= i < |ts| ==> NarrowAt(ts, j, i)
  }

  predicate NarrowAt(ts: seq<Turn>, j: nat, i: nat)
    requires j < METRICS && i < |ts|
  {
    ts[i].onExit[j] < Width(j)
  }

  /** How much metric `j` grew from the first entry seen to the exit of call `n - 1`. */
  function Growth(ts: seq<Turn>, j: nat, n: nat): int
    requires j < METRICS
  {
    if n == 0 || EntryTurn(ts, 0) >= |ts| || ExitTurn(ts, n - 1) >= |ts| then 0
    else ts[ExitTurn(ts, n - 1)].onExit[j] as int - ts[EntryTurn(ts, 0)].onEntry[j] as int
  }

  function Width(j: nat): nat { if j == 0 then TWO32 else TWO31N }

  /** A shown difference is the true one, for cycles always below 2^32, for the 31-bit counters exactly
      when no 2^31 boundary was crossed. */
  lemma DeltaIsExact(now: Sample, snap: Sample, j: nat)
    requires j < METRICS && snap[j] <= now[j] && now[j] - snap[j] < Width(j)
    ensures Deltas(Shown(now), Shown(snap))[j] == now[j] - snap[j]
      <==> j == 0 || now[j] / TWO31N == snap[j] / TWO31N
  {
    var x, y := now[j], snap[j];
    if j == 0 {
      Difference32(x, y);
    } else {
      Difference31(x, y);
    }
  }

  lemma Difference32(x: nat, y: nat)
    requires y <= x && x - y < TWO32
    ensures U32(U32(x) - U32(y)) == x - y
  {
  }

  lemma Difference31(x: nat, y: nat)
    requires y <= x && x - y < TWO31N
    ensures U32(x % TWO31N - y % TWO31N) == x - y <==> x / TWO31N == y / TWO31N
  {
  }

  /** The true cost of call `k`, and the sum of the first `n`. */
  function TrueCost(ts: seq<Turn>, j: nat, k: nat): int
    requires j < METRICS
  {
    if EntryTurn(ts, k) >= |ts| || ExitTurn(ts, k) >= |ts| then 0
    else ts[ExitTurn(ts, k)].onExit[j] as int - ts[EntryTurn(ts, k)].onEntry[j] as int
  }

  function TrueCostBy(ts: seq<Turn>, j: nat): nat -> int
    requires j < METRICS
  {
    (k: nat) => TrueCost(ts, j, k)
  }

  function TrueSum(ts: seq<Turn>, j: nat, n: nat): int
    requires j < METRICS
  {
    Total(TrueCostBy(ts, j), n)
  }

  lemma {:induction false} Later(ts: seq<Turn>, j: nat, i: nat, i': nat)
    requires j < METRICS && Monotone(ts, j) && i <= i' < |ts|
    ensures ts[i].onEntry[j] <= ts[i'].onExit[j]
    ensures i < i' ==> ts[i].onExit[j] <= ts[i'].onEntry[j]
    decreases i' - i
  {
    if i < i' {
      Later(ts, j, i, i' - 1);
      assert RisesAt(ts, j, i' - 1);
    }
    assert RisesAt(ts, j, i');
  }

  /** The turns that see a call's entry, its exit and the next call's entry come in that order, the
      first two possibly the same; the call is open when its entry is read, and over when its exit is. */
  lemma TurnsInOrder(ts: seq<Turn>, k: nat)
    requires Paced(ts) && ExitTurn(ts, k) < |ts|
    ensures EntryTurn(ts, k) <= ExitTurn(ts, k)
    ensures ts[EntryTurn(ts, k)].n0 == 2 * k + 1 && 2 * k + 2 <= ts[ExitTurn(ts, k)].n1 <= 2 * k + 3
    ensures EntryTurn(ts, k + 1) < |ts| ==> ExitTurn(ts, k) < EntryTurn(ts, k + 1)
  {
    var p, q, r := EntryTurn(ts, k), ExitTurn(ts, k), EntryTurn(ts, k + 1);
    PacedExit(ts, k, q);
    SeenBy(ts, k, q);
    PacedEntry(ts, k, p);
    assert PacedAt(ts, q);
    if r < |ts| {
      PacedSeesAll(ts);
      NotSeenBy(ts, k + 1, q);
    }
  }

  lemma PacedEntry(ts: seq<Turn>, k: nat, p: nat)
    requires Paced(ts) && p == EntryTurn(ts, k) < |ts|
    ensures ts[p].n0 == 2 * k + 1
  {
    assert PacedAt(ts, p);
    assert p > 0 ==> !EntryReadPast(ts, 2 * k, p - 1);
  }

  /** The true costs of the first `n` calls never add up to more than the counter has grown. */
  lemma {:induction false} SumWithinGrowth(ts: seq<Turn>, j: nat, n: nat)
    requires Paced(ts) && j < METRICS && Monotone(ts, j) && n > 0 && ExitTurn(ts, n - 1) < |ts|
    ensures EntryTurn(ts, 0) < |ts| && 0 <= TrueSum(ts, j, n) <= Growth(ts, j, n)
    decreases n
  {
    TurnsInOrder(ts, n - 1);
    Later(ts, j, EntryTurn(ts, n - 1), ExitTurn(ts, n - 1));
    TrueSumNext(ts, j, n - 1);
    if n > 1 {
      EarlierExit(ts, n - 2);
      TurnsInOrder(ts, n - 2);
      Later(ts, j, ExitTurn(ts, n - 2), EntryTurn(ts, n - 1));
      SumWithinGrowth(ts, j, n - 1);
    }
  }

  lemma TrueSumNext(ts: seq<Turn>, j: nat, n: nat)
    requires j < METRICS
    ensures TrueSum(ts, j, 0) == 0 && TrueSum(ts, j, n + 1) == TrueSum(ts, j, n) + TrueCost(ts, j, n)
  {
    assert TrueCostBy(ts, j)(n) == TrueCost(ts, j, n);
  }

  lemma EarlierExit(ts: seq<Turn>, k: nat)
    requires ExitTurn(ts, k + 1) < |ts|
    ensures ExitTurn(ts, k) < |ts|
  {
    assert ExitReadPast(ts, 2 * k + 1, ExitTurn(ts, k + 1));
  }

  /** What is logged for a call is its true cost, with no counter past its width. */
  predicate LoggedTrue(ts: seq<Turn>, j: nat, k: nat)
    requires j < METRICS
  {
    Logged(ts, k)[j] == TrueCost(ts, j, k)
  }

  lemma LoggedIsTrue(ts: seq<Turn>, j: nat, k: nat)
    requires Paced(ts) && j < METRICS && Monotone(ts, j) && Narrow(ts, j) && ExitTurn(ts, k) < |ts|
    ensures LoggedTrue(ts, j, k)
  {
    TurnsInOrder(ts, k);
    var p, q := EntryTurn(ts, k), ExitTurn(ts, k);
    Later(ts, j, p, q);
    assert NarrowAt(ts, j, q);
    NarrowDelta(ts[q].onExit, ts[p].onEntry, j);
    PacedCost(ts, k);
  }

  lemma NarrowDelta(now: Sample, snap: Sample, j: nat)
    requires j < METRICS && snap[j] <= now[j] < Width(j)
    ensures Deltas(Shown(now), Shown(snap))[j] == now[j] - snap[j]
  {
    DeltaIsExact(now, snap, j);
  }

  lemma {:induction false} SameTotal(cost: nat -> int, cost': nat -> int, n: nat)
    requires forall k: nat :: k < n ==> cost(k) == cost'(k)
    ensures Total(cost, n) == Total(cost', n)
    decreases n
  {
    if n > 0 {
      SameTotal(cost, cost', n - 1);
    }
  }

  lemma CallIsTrue(ts: seq<Turn>, j: nat, k: nat)
    requires Paced(ts) && j < METRICS && Monotone(ts, j) && Narrow(ts, j) && k < Exits(N1(ts, |ts|))
    ensures LoggedTrue(ts, j, k)
  {
    ExitIsSeen(ts, k, |ts|);
    LoggedIsTrue(ts, j, k);
  }

  /** So the logged sum is the true one, and within the growth. */
  lemma SumIsTrue(ts: seq<Turn>, j: nat, n: nat)
    requires Paced(ts) && j < METRICS && Monotone(ts, j) && Narrow(ts, j) && n <= Exits(N1(ts, |ts|))
    ensures Sum(LoggedBy(ts), j, n) == TrueSum(ts, j, n)
  {
    forall k: nat | k < n ensures Metric(LoggedBy(ts), j)(k) == TrueCostBy(ts, j)(k) {
      CallIsTrue(ts, j, k);
    }
    SameTotal(Metric(LoggedBy(ts), j), TrueCostBy(ts, j), n);
  }

  /** The totals in the log are the true sums of all completed calls' costs, each at most what its
      counter grew by, when the counters are monotone and below their widths. */
  lemma TotalsWithinGrowth(ts: seq<Turn>, j: nat)
    requires Paced(ts) && j < METRICS && Monotone(ts, j) && Narrow(ts, j) && Exits(N1(ts, |ts|)) < TWO32
    ensures var n := Exits(N1(ts, |ts|));
      Run(ts, |ts|).totals[j] == TrueSum(ts, j, n) <= Growth(ts, j, n) < Width(j)
  {
    var n := Exits(N1(ts, |ts|));
    RunTotal(ts, j, n);
    TrueSumNarrow(ts, j, n);
    SumIsTrue(ts, j, n);
    Unwrapped(TrueSum(ts, j, n), Width(j));
  }

  lemma RunTotal(ts: seq<Turn>, j: nat, n: nat)
    requires Paced(ts) && j < METRICS && n == Exits(N1(ts, |ts|)) < TWO32
    ensures Run(ts, |ts|).totals[j] == U32(Sum(LoggedBy(ts), j, n))
  {
    PacedSeesAll(ts);
    RunKnows(ts, |ts|);
    assert TotalIs(Run(ts, |ts|).totals, LoggedBy(ts), n, j);
  }

  lemma TrueSumNarrow(ts: seq<Turn>, j: nat, n: nat)
    requires Paced(ts) && j < METRICS && Monotone(ts, j) && Narrow(ts, j) && n <= Exits(N1(ts, |ts|))
    ensures 0 <= TrueSum(ts, j, n) <= Growth(ts, j, n) < Width(j)
  {
    if n > 0 {
      ExitIsSeen(ts, n - 1, |ts|);
      SumWithinGrowth(ts, j, n);
      GrowthIsNarrow(ts, j, n);
    } else {
      TrueSumNext(ts, j, 0);
    }
  }

  lemma GrowthIsNarrow(ts: seq<Turn>, j: nat, n: nat)
    requires j < METRICS && Narrow(ts, j) && n > 0 && ExitTurn(ts, n - 1) < |ts|
    ensures Growth(ts, j, n) < Width(j)
  {
    assert NarrowAt(ts, j, ExitTurn(ts, n - 1));
  }

  lemma Unwrapped(x: int, w: nat)
    requires 0 <= x < w <= TWO32
    ensures U32(x) == x
  {
  }

  // ---- the loop in place ----

  lemma StoreOne(m: Log, w: nat, s: Sample, j: nat)
    requires w + METRICS <= LOG_WORDS && j < METRICS
    ensures (m[..w] + s[..j] + m[w + j..])[w + j := s[j]] == m[..w] + s[..j + 1] + m[w + j + 1..]
  {
    assert m[w + j..][1..] == m[w + j + 1..] && s[..j + 1] == s[..j] + [s[j]];
  }

  class Firmware {
    var prevEntry: nat
    var prevExit: nat
    var snap: Sample
    var totals: Sample
    var calls: nat
    const dspm: array<nat>

    ghost predicate Valid()
      reads this
    {
      dspm.Length == LOG_WORDS
    }

    ghost function Now(): State
      requires Valid()
      reads this, dspm
    {
      State(prevEntry, prevExit, snap, totals, calls, dspm[..])
    }

    constructor (dspm: array<nat>)
      requires dspm.Length == LOG_WORDS && forall k :: 0 <= k < LOG_WORDS ==> dspm[k] == 0
      ensures Valid() && this.dspm == dspm && Now() == Start()
    {
      prevEntry, prevExit, snap, totals, calls := 0, 0, NONE, NONE, 0;
      this.dspm := dspm;
    }

    method Write9(w: nat, s: Sample)
      requires Valid() && w + METRICS <= LOG_WORDS
      modifies dspm
      ensures dspm[..] == Store9(old(dspm[..]), w, s)
    {
      var j := 0;
      while j < METRICS
        invariant 0 <= j <= METRICS && dspm[..] == old(dspm[..])[..w] + s[..j] + old(dspm[..])[w + j..]
      {
        StoreOne(old(dspm[..]), w, s, j);
        dspm[w + j] := s[j];
        j := j + 1;
      }
      assert s[..j] == s;
    }

    /** One turn: the counters are sampled, an entry takes a snapshot, an exit writes a record. */
    method Poll(t: Turn)
      requires Valid()
      modifies this, dspm
      ensures Valid() && Now() == OnExit(OnEntry(old(Now()), t), t)
    {
      var curEntry, curExit := Entries(t.n0) % TWO31N, Exits(t.n1) % TWO31N;
      if curEntry != prevEntry {
        snap := Shown(t.onEntry);
        dspm[STATE] := 1;
        prevEntry := curEntry;
      }
      ghost var s := Now();
      assert s == OnEntry(old(Now()), t);
      if curExit != prevExit {
        var d := Deltas(Shown(t.onExit), snap);
        totals := Sums(totals, d);
        WriteCall(d);
        calls := U32(calls + 1);
        prevExit := curExit;
        assert Now() == OnExit(s, t);
      }
    }

    method WriteCall(d: Sample)
      requires Valid()
      modifies dspm
      ensures dspm[..] == LogCall(old(dspm[..]), calls, totals, d)
    {
      Write9(TOTALS, totals);
      if calls < MAX_RECORDS {
        Write9(RecordAt(calls), d);
      }
      dspm[CALL_COUNT] := U32(calls + 1);
      dspm[STATE] := 0;
    }

    /** Any number of turns. */
    method PollAll(ts: seq<Turn>)
      requires Valid() && Now() == Start()
      modifies this, dspm
      ensures Valid() && Now() == Run(ts, |ts|)
    {
      var i := 0;
      while i < |ts|
        invariant 0 <= i <= |ts| && Valid() && Now() == Run(ts, i)
      {
        Poll(ts[i]);
        i := i + 1;
      }
    }
  }
}
