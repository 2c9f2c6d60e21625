/** The host beside the sorting program: it sorts a copy of the array for itself, then compares the array with it
    again and again, and stops when the number of differences repeats. */
module BubbleSortHost {
  import opened Machine32
  import opened Rv32i
  import opened BubbleSort
  import opened BubbleSortProgram
  import opened HostAccess

  /** The patched program, about to execute its first word, with the array at the base it loads. */
  predicate Starts(code: seq<Instr>, s: Cpu, base: nat, a: seq<nat>)
  {
    && 2 <= |a| <= 512 && base % 0x1000 < 0x800 && Placed(base, |a|) && Words(a)
    && s.Valid() && s.pc == 0 && IsSorter(code) && IsPatched(code, base, |a|)
    && forall j :: 0 <= j < |a| ==> Load(s.mem, base + 4 * j) == a[j]
  }

  /** The words that the test stores are such a program. */
  lemma ProgramStarts(code: seq<Instr>, base: nat, a: seq<nat>, s: Cpu)
    requires 2 <= |a| <= 512 && base % 0x1000 < 0x800 && Placed(base, |a|) && Words(a)
    requires s.Valid() && s.pc == 0 && Array(s.mem, base, a) && code == DecodeAll(Program(base, |a|))
    ensures Starts(code, s, base, a)
  {
    ProgramIs(code, base, |a|);
  }

  // ---- the array over time ----

  predicate WordIs(seen: History, t: nat, base: nat, a: seq<nat>, i: nat)
    requires i < |a|
  {
    seen(t, base + 4 * i) == a[i]
  }

  /** After `t` steps the array holds `a`. */
  ghost predicate HoldsAt(seen: History, t: nat, base: nat, a: seq<nat>)
  {
    forall i :: 0 <= i < |a| ==> WordIs(seen, t, base, a, i)
  }

  lemma ArrayAt(seen: History, t: nat, mem: Memory, base: nat, a: seq<nat>)
    requires Array(mem, base, a) && forall x: nat :: seen(t, x) == Load(mem, x)
    ensures HoldsAt(seen, t, base, a)
  {
  }

  lemma SpinHolds(code: seq<Instr>, s: Cpu, s': Cpu, n: nat, t: nat, base: nat, a: seq<nat>, seen: History)
    requires Steps(code, s, n) == Next(s') && IsSorter(code) && s'.Valid() && s'.pc == 68 && t >= n
    requires Array(s'.mem, base, a) && seen == HistoryOf(code, s)
    ensures HoldsAt(seen, t, base, a)
  {
    SpinsAt(code, s, s', n, t - n, s'.mem, t, seen);
    ArrayAt(seen, t, s'.mem, base, a);
  }

  lemma SpinsAt(code: seq<Instr>, s: Cpu, s': Cpu, n: nat, m: nat, mem: Memory, t: nat, seen: History)
    requires Steps(code, s, n) == Next(s') && IsSorter(code) && s'.Valid() && s'.pc == 68 && mem == s'.mem
    requires t == n + m && seen == HistoryOf(code, s)
    ensures forall x: nat :: seen(t, x) == Load(mem, x)
  {
    SpinForever(code, s', m);
    Later(code, s, s', n, m, mem, t, seen);
  }

  /** From some step on the array is sorted. */
  lemma Finishes(code: seq<Instr>, s: Cpu, base: nat, a: seq<nat>, seen: History) returns (finish: nat)
    requires Starts(code, s, base, a) && seen == HistoryOf(code, s)
    ensures AlwaysFrom(seen, finish, base, BubbleSorted(a))
  {
    BitClear(base, |a|);
    var s' := PatchedSortsLoaded(code, base, a, s);
    finish :| Path(code, s, s', Outside(base, |a|), finish);
    forall t: nat | t >= finish ensures HoldsAt(seen, t, base, BubbleSorted(a)) {
      SpinHolds(code, s, s', finish, t, base, BubbleSorted(a), seen);
    }
  }

  /** An array that is sorted beforehand is so at every step, not only before and after. */
  lemma SortedThroughout(code: seq<Instr>, s: Cpu, base: nat, a: seq<nat>, seen: History)
    requires Starts(code, s, base, a) && Sorted(a) && seen == HistoryOf(code, s)
    ensures forall t: nat :: HoldsAt(seen, t, base, a)
  {
    BitClear(base, |a|);
    var start := Prefix(code, base, |a|, s);
    OffsetFits(base, |a|);
    var s' := SortedRun(code, start, base, a);
    Then(code, s, start, s', EVERYWHERE);
    var n: nat :| Path(code, s, s', EVERYWHERE, n);
    QuietUntil(code, s, s', EVERYWHERE, n, seen);
    LeftAlone(code, s, s', base, a, EVERYWHERE);
    forall t: nat ensures HoldsAt(seen, t, base, a) {
      if t >= n {
        SpinHolds(code, s, s', n, t, base, a, seen);
      } else {
        ArrayAt(seen, t, s.mem, base, a);
      }
    }
  }

  // ---- counting differences ----

  /** The first `n` words that differ. */
  function Differences(golden: seq<nat>, got: seq<nat>, n: nat): nat
    requires n <= |golden| == |got|
  {
    if n == 0 then 0 else Differences(golden, got, n - 1) + (if golden[n - 1] != got[n - 1] then 1 else 0)
  }

  lemma {:induction false} NoDifference(golden: seq<nat>, got: seq<nat>, n: nat)
    requires n <= |golden| == |got|
    ensures Differences(golden, got, n) == 0 <==> golden[..n] == got[..n]
    decreases n
  {
    if n > 0 {
      NoDifference(golden, got, n - 1);
      assert golden[..n] == golden[..n - 1] + [golden[n - 1]] && got[..n] == got[..n - 1] + [got[n - 1]];
    }
  }

  /** What the p-th comparison reads, from access p * len on. */
  function Polled(read: History, base: nat, len: nat, p: nat): (got: seq<nat>)
    ensures |got| == len
  {
    seq(len, (i: nat) => read(p * len + i, base + 4 * i))
  }

  /** The host's error count before comparison `p`: to begin with, what loading the program and the array left. */
  function ErrorsBefore(read: History, base: nat, golden: seq<nat>, first: nat, p: nat): nat
  {
    if p == 0 then first
    else Differences(golden, Polled(read, base, |golden|, p - 1), |golden|)
  }

  lemma PolledIs(read: History, seen: History, when: nat -> nat, base: nat, a: seq<nat>, p: nat)
    requires Interleaved(read, seen, when)
    requires forall t: nat :: t >= when(p * |a|) ==> HoldsAt(seen, t, base, a)
    ensures Polled(read, base, |a|, p) == a
  {
    var got := Polled(read, base, |a|, p);
    forall i | 0 <= i < |a| ensures got[i] == a[i] {
      var t := when(p * |a| + i);
      assert p * |a| + i >= p * |a|;
      assert HoldsAt(seen, t, base, a) && WordIs(seen, t, base, a, i);
    }
  }

  /** A comparison whose reads find the golden array counts no difference. */
  lemma NoErrors(read: History, seen: History, when: nat -> nat, base: nat, golden: seq<nat>, first: nat, p: nat)
    requires Interleaved(read, seen, when)
    requires forall t: nat :: t >= when(p * |golden|) ==> HoldsAt(seen, t, base, golden)
    ensures ErrorsBefore(read, base, golden, first, p + 1) == 0
  {
    PolledIs(read, seen, when, base, golden, p);
    NoDifference(golden, golden, |golden|);
  }

  // ---- the host ----

  /** The comparisons of one run of the host. They end, and the answer is the first count that repeats: zero, if the
      array was sorted beforehand, or is by the time of the first read. */
  method SettledErrors(read: History, base: nat, a: seq<nat>, first: nat,
                       ghost code: seq<Instr>, ghost s: Cpu, ghost when: nat -> nat, ghost finish: nat)
    returns (errors: nat, polls: nat)
    requires Starts(code, s, base, a) && Interleaved(read, HistoryOf(code, s), when) && first < TWO32 - 1
    requires AlwaysFrom(HistoryOf(code, s), finish, base, BubbleSorted(a))
    ensures polls > 0 && errors == ErrorsBefore(read, base, BubbleSorted(a), first, polls)
    ensures Settled(read, base, BubbleSorted(a), first, polls)
    ensures Sorted(a) || when(0) >= finish ==> errors == 0
  {
    ghost var seen := HistoryOf(code, s);
    ghost var from := finish;
    if Sorted(a) {
      SortedStays(a);
      SortedThroughout(code, s, base, a, seen);
      from := 0;
    }
    errors, polls := CompareUntilSettled(read, base, BubbleSorted(a), first, seen, when, from);
  }

  ghost predicate AlwaysFrom(seen: History, finish: nat, base: nat, golden: seq<nat>)
  {
    forall t: nat :: t >= finish ==> HoldsAt(seen, t, base, golden)
  }

  /** Comparison `polls` is the first whose count is that of the one before. */
  ghost predicate Settled(read: History, base: nat, golden: seq<nat>, first: nat, polls: nat)
  {
    polls > 0 && !Moves(read, base, golden, first, polls)
    && forall p :: 0 < p < polls ==> Moves(read, base, golden, first, p)
  }

  /** The loop itself, for what the host sees of any array that is golden from step `finish` on. */
  method CompareUntilSettled(read: History, base: nat, golden: seq<nat>, first: nat,
                             ghost seen: History, ghost when: nat -> nat, ghost finish: nat)
    returns (errors: nat, polls: nat)
    requires Interleaved(read, seen, when) && AlwaysFrom(seen, finish, base, golden)
    requires golden != [] && first < TWO32 - 1
    ensures polls > 0 && errors == ErrorsBefore(read, base, golden, first, polls)
    ensures Settled(read, base, golden, first, polls)
    ensures when(0) >= finish ==> errors == 0
  {
    assert GetsTo(when, finish);
    ghost var late: nat :| when(late) >= finish;
    var previous := TWO32 - 1;
    errors, polls := first, 0;
    while previous != errors
      invariant errors == ErrorsBefore(read, base, golden, first, polls)
      invariant previous == if polls == 0 then TWO32 - 1 else ErrorsBefore(read, base, golden, first, polls - 1)
      invariant forall p :: 0 < p < polls ==> Moves(read, base, golden, first, p)
      invariant polls > late ==> errors == 0
      invariant polls > late + 1 ==> previous == 0
      invariant polls > 0 && when(0) >= finish ==> errors == 0
      decreases late + 2 - polls
    {
      assert polls > 0 ==> Moves(read, base, golden, first, polls);
      previous := errors;
      errors := Compare(read, base, golden, polls);
      Settles(read, seen, when, base, golden, first, late, finish, polls);
      polls := polls + 1;
    }
  }

  /** The count changed between two comparisons. */
  predicate Moves(read: History, base: nat, golden: seq<nat>, first: nat, p: nat)
    requires p > 0
  {
    ErrorsBefore(read, base, golden, first, p) != ErrorsBefore(read, base, golden, first, p - 1)
  }

  lemma Settles(read: History, seen: History, when: nat -> nat, base: nat, golden: seq<nat>, first: nat, late: nat,
                finish: nat, p: nat)
    requires Interleaved(read, seen, when) && AlwaysFrom(seen, finish, base, golden)
    requires when(late) >= finish && golden != []
    ensures when(0) >= finish || p >= late ==> ErrorsBefore(read, base, golden, first, p + 1) == 0
  {
    if when(0) >= finish || p >= late {
      var i := p * |golden|;
      AtLeast(p, |golden|);
      assert when(i) >= when(0) && (p >= late ==> when(i) >= when(late));
      NoErrors(read, seen, when, base, golden, first, p);
    }
  }

  lemma AtLeast(p: nat, n: nat)
    requires n > 0
    ensures p * n >= p
  {
  }

  method Compare(read: History, base: nat, golden: seq<nat>, p: nat) returns (errors: nat)
    ensures errors == Differences(golden, Polled(read, base, |golden|, p), |golden|)
  {
    errors := 0;
    for i := 0 to |golden|
      invariant errors == Differences(golden, Polled(read, base, |golden|, p), i)
    {
      if golden[i] != read(p * |golden| + i, base + 4 * i) {
        errors := errors + 1;
      }
    }
  }

  /** An array that is not sorted beforehand can be taken for wrongly sorted: with two comparisons before the
      program's first step the count repeats and is not zero. */
  lemma GivesUpEarly(code: seq<Instr>, s: Cpu, base: nat, a: seq<nat>, first: nat)
    returns (read: History, when: nat -> nat)
    requires Starts(code, s, base, a) && !Sorted(a)
    ensures Interleaved(read, HistoryOf(code, s), when)
    ensures ErrorsBefore(read, base, BubbleSorted(a), first, 1)
      == ErrorsBefore(read, base, BubbleSorted(a), first, 2) > 0
    ensures forall polls: nat :: Settled(read, base, BubbleSorted(a), first, polls) ==>
              ErrorsBefore(read, base, BubbleSorted(a), first, polls) > 0
  {
    var seen := HistoryOf(code, s);
    AtOneMoment(code, s, 0, s.mem, seen);
    ArrayAt(seen, 0, s.mem, base, a);
    read, when := EarlyReads(seen, |a|);
    EarlyCount(read, seen, when, base, a, first, 0);
    EarlyCount(read, seen, when, base, a, first, 1);
    SettledByTwo(read, base, BubbleSorted(a), first);
  }

  lemma SettledByTwo(read: History, base: nat, golden: seq<nat>, first: nat)
    requires ErrorsBefore(read, base, golden, first, 1) == ErrorsBefore(read, base, golden, first, 2)
    ensures forall polls: nat :: Settled(read, base, golden, first, polls) ==>
              ErrorsBefore(read, base, golden, first, polls) == ErrorsBefore(read, base, golden, first, 1)
  {
    assert !Moves(read, base, golden, first, 2);
  }

  /** Two comparisons before the first step. */
  lemma EarlyReads(seen: History, n: nat) returns (read: History, when: nat -> nat)
    ensures Interleaved(read, seen, when) && forall i: nat :: i < 2 * n ==> when(i) == 0
  {
    when := (i: nat) => if i < 2 * n then 0 else i;
    read := ReadAt(seen, when);
    forall t: nat ensures GetsTo(when, t) {
      assert when(t + 2 * n) >= t;
    }
  }

  lemma EarlyCount(read: History, seen: History, when: nat -> nat, base: nat, a: seq<nat>, first: nat, p: nat)
    requires Interleaved(read, seen, when) && a != [] && !Sorted(a) && p < 2 && HoldsAt(seen, 0, base, a)
    requires forall i: nat :: i < 2 * |a| ==> when(i) == 0
    ensures ErrorsBefore(read, base, BubbleSorted(a), first, p + 1) == Differences(BubbleSorted(a), a, |a|) > 0
  {
    EarlyPoll(read, seen, when, base, a, p);
    SortedStays(a);
    SomeDifference(BubbleSorted(a), a);
  }

  lemma SomeDifference(golden: seq<nat>, got: seq<nat>)
    requires |golden| == |got| && golden != got
    ensures Differences(golden, got, |got|) > 0
  {
    NoDifference(golden, got, |got|);
    assert golden[..|got|] == golden && got[..|got|] == got;
  }

  lemma EarlyPoll(read: History, seen: History, when: nat -> nat, base: nat, a: seq<nat>, p: nat)
    requires Interleaved(read, seen, when) && p < 2 && HoldsAt(seen, 0, base, a)
    requires forall i: nat :: i < 2 * |a| ==> when(i) == 0
    ensures Polled(read, base, |a|, p) == a
  {
    var got := Polled(read, base, |a|, p);
    forall i | 0 <= i < |a| ensures got[i] == a[i] {
      var at := p * |a| + i;
      assert at == if p == 0 then i else |a| + i;
      assert read(at, base + 4 * i) == seen(when(at), base + 4 * i);
      assert WordIs(seen, 0, base, a, i);
    }
  }
}
