/** The host beside the register-fill program: it waits for the target to read 101 and then reads every register
    back, each access at a moment of its own while the program runs. */
module RegisterFillHost {
  import opened Rv32i
  import opened RegisterFillProgram
  import opened HostAccess

  // ---- when the registers are right ----

  predicate RegisterRight(seen: History, t: nat, base: nat, k: nat, j: nat)
  {
    seen(t, Register(base, k, j)) == Value(k, j)
  }

  ghost predicate AllRight(seen: History, t: nat, base: nat, count: nat)
  {
    forall k, j :: 0 <= k < count && 0 <= j < 4 ==> RegisterRight(seen, t, base, k, j)
  }

  /** Whenever the host finds 101 in the target, every register is right from then on. */
  ghost predicate Trustworthy(seen: History, base: nat, target: nat, count: nat)
  {
    forall n: nat, m: nat :: n <= m && seen(n, target) == DONE ==> AllRight(seen, m, base, count)
  }

  /** The patched program, about to execute its first word. */
  predicate Starts(code: seq<Instr>, s: Cpu, base: nat, target: nat, count: nat)
  {
    && Placed(base, target, count) && count < 0x800 && base % 0x1000 < 0x800 && target % 0x1000 < 0x800
    && s.Valid() && s.pc == 0 && IsFiller(code) && IsPatched(code, base, target, count)
  }

  /** What happens: after `fill` steps the registers are filled, some of which may have been right before; two
      steps later, and from then on, the target holds 101. */
  ghost predicate Timeline(seen: History, mem0: Memory, base: nat, target: nat, count: nat, fill: nat)
  {
    && (forall t: nat, x: nat :: t <= fill && x in Steady(base, count, mem0) ==> seen(t, x) == Load(mem0, x))
    && (forall x: nat :: seen(fill + 1, x) == seen(fill, x))
    && (forall t: nat, x: nat :: t >= fill + 2 ==> seen(t, x) == if x == target then DONE else seen(fill, x))
    && AllRight(seen, fill, base, count)
  }

  lemma AfterReport(code: seq<Instr>, filled: Cpu, target: nat, done: Cpu, n: nat)
    requires IsFiller(code) && Reports(code, filled, target, done)
    ensures Steps(code, filled, n + 2).Next? && Steps(code, filled, n + 2).cpu.mem == done.mem
  {
    StepsAdd(code, filled, done, 2, n);
    SpinForever(code, done, n);
  }

  lemma RunsSo(code: seq<Instr>, s: Cpu, base: nat, target: nat, count: nat, seen: History) returns (fill: nat)
    requires Starts(code, s, base, target, count) && seen == HistoryOf(code, s)
    ensures Timeline(seen, s.mem, base, target, count, fill)
  {
    var filled, done := PatchedFills(code, base, target, count, s);
    var quiet := Steady(base, count, s.mem);
    fill :| Path(code, s, filled, quiet, fill);
    QuietUntil(code, s, filled, quiet, fill, seen);
    OnceFilled(code, s, filled, target, done, fill, seen);
    forall k, j | 0 <= k < count && 0 <= j < 4 ensures RegisterRight(seen, fill, base, k, j) {
      assert Load(filled.mem, Register(base, k, j)) == Value(k, j);
    }
  }

  lemma OnceFilled(code: seq<Instr>, s: Cpu, filled: Cpu, target: nat, done: Cpu, fill: nat, seen: History)
    requires Steps(code, s, fill) == Next(filled) && IsFiller(code) && Reports(code, filled, target, done)
    requires seen == HistoryOf(code, s)
    ensures forall x: nat :: seen(fill, x) == seen(fill + 1, x) == Load(filled.mem, x)
    ensures forall t: nat, x: nat :: t >= fill + 2 ==> seen(t, x) == Load(done.mem, x)
  {
    var one := 1;
    AtOneMoment(code, s, fill, filled.mem, seen);
    Later(code, s, filled, fill, one, filled.mem, fill + 1, seen);
    forall t: nat, x: nat | t >= fill + 2 ensures seen(t, x) == Load(done.mem, x) {
      LastsFrom(code, s, filled, target, done, fill, t - fill - 2, t, seen);
    }
  }

  lemma LastsFrom(code: seq<Instr>, s: Cpu, filled: Cpu, target: nat, done: Cpu, fill: nat, n: nat, t: nat,
                  seen: History)
    requires Steps(code, s, fill) == Next(filled) && IsFiller(code) && Reports(code, filled, target, done)
    requires t == fill + 2 + n && seen == HistoryOf(code, s)
    ensures forall x: nat :: seen(t, x) == Load(done.mem, x)
  {
    AfterReport(code, filled, target, done, n);
    Later(code, s, filled, fill, n + 2, done.mem, t, seen);
  }

  // ---- when 101 can be trusted ----

  /** Every register holds its value before the program starts. */
  ghost predicate RightBefore(mem0: Memory, base: nat, count: nat)
  {
    forall k, j :: 0 <= k < count && 0 <= j < 4 ==> RightAt(mem0, base, k, j, Register(base, k, j))
  }

  lemma RightFrom(seen: History, mem0: Memory, base: nat, target: nat, count: nat, fill: nat, m: nat)
    requires Placed(base, target, count) && Timeline(seen, mem0, base, target, count, fill)
    requires m >= fill || RightBefore(mem0, base, count)
    ensures AllRight(seen, m, base, count)
  {
    forall k, j | 0 <= k < count && 0 <= j < 4 ensures RegisterRight(seen, m, base, k, j) {
      var x := Register(base, k, j);
      RegisterQuiet(base, target, count, k, j);
      assert RegisterRight(seen, fill, base, k, j);
      if m < fill {
        assert RightAt(mem0, base, k, j, x);
        assert x in Steady(base, count, mem0);
      }
    }
  }

  lemma NotReportedYet(seen: History, mem0: Memory, base: nat, target: nat, count: nat, fill: nat, n: nat)
    requires Placed(base, target, count) && Timeline(seen, mem0, base, target, count, fill)
    requires Load(mem0, target) != DONE && seen(n, target) == DONE
    ensures n >= fill + 2
  {
    assert target in Steady(base, count, mem0);
    assert seen(fill, target) == Load(mem0, target);
  }

  lemma TrustedWhen(seen: History, mem0: Memory, base: nat, target: nat, count: nat, fill: nat)
    requires Placed(base, target, count) && Timeline(seen, mem0, base, target, count, fill)
    requires forall x: nat :: seen(0, x) == Load(mem0, x)
    ensures Trustworthy(seen, base, target, count) <==> Load(mem0, target) != DONE || RightBefore(mem0, base, count)
  {
    if Load(mem0, target) != DONE || RightBefore(mem0, base, count) {
      forall n: nat, m: nat | n <= m && seen(n, target) == DONE ensures AllRight(seen, m, base, count) {
        if Load(mem0, target) != DONE {
          NotReportedYet(seen, mem0, base, target, count, fill, n);
        }
        RightFrom(seen, mem0, base, target, count, fill, m);
      }
    } else {
      var k, j :| 0 <= k < count && 0 <= j < 4 && !RightAt(mem0, base, k, j, Register(base, k, j));
      assert !RegisterRight(seen, 0, base, k, j);
      assert !AllRight(seen, 0, base, count) && seen(0, target) == DONE;
    }
  }

  /** The host's check can be trusted, whatever the timing of its accesses, exactly when the target does not hold
      101 beforehand, or every register already holds its value: nothing clears the target. */
  lemma TrustworthyWhen(code: seq<Instr>, s: Cpu, base: nat, target: nat, count: nat)
    requires Starts(code, s, base, target, count)
    ensures Trustworthy(HistoryOf(code, s), base, target, count)
      <==> Load(s.mem, target) != DONE || RightBefore(s.mem, base, count)
  {
    var seen := HistoryOf(code, s);
    var fill := RunsSo(code, s, base, target, count, seen);
    AtOneMoment(code, s, 0, s.mem, seen);
    TrustedWhen(seen, s.mem, base, target, count, fill);
  }

  /** The words that the test stores are such a program. */
  lemma ProgramStarts(base: nat, target: nat, count: nat, s: Cpu)
    requires Placed(base, target, count) && count < 0x800 && base % 0x1000 < 0x800 && target % 0x1000 < 0x800
    requires s.Valid() && s.pc == 0
    ensures Starts(DecodeAll(Program(base, target, count)), s, base, target, count)
  {
    ProgramDecodes(base, target, count);
    CodeIs(base, target, count);
  }

  /** A second call with the same target and more counters: the host may find the first call's 101. */
  lemma SecondCallFails(code: seq<Instr>, s: Cpu, base: nat, target: nat, first: nat, count: nat, filled: Memory,
                        mem0: Memory)
    requires Starts(code, s, base, target, count) && first < count
    requires Filled(filled, mem0, base, first) && s.mem == filled[target := DONE]
    requires Load(mem0, Register(base, first, 0)) != Value(first, 0)
    ensures !Trustworthy(HistoryOf(code, s), base, target, count)
  {
    var x := Register(base, first, 0);
    RegisterQuiet(base, target, count, first, 0);
    assert !InBundles(x, base, first);
    assert !RightAt(s.mem, base, first, 0, x);
    TrustworthyWhen(code, s, base, target, count);
  }

  /** Registers that are zero, and a target that happens to hold 101. */
  function Stale(): Cpu { Cpu(0, seq(32, _ => 0), map[0x8000 := DONE]) }

  lemma StaleReport(code: seq<Instr>)
    requires code == DecodeAll(Program(0x1000, 0x8000, 1))
    ensures Starts(code, Stale(), 0x1000, 0x8000, 1) && !Trustworthy(HistoryOf(code, Stale()), 0x1000, 0x8000, 1)
  {
    ProgramStarts(0x1000, 0x8000, 1, Stale());
    assert !RightAt(Stale().mem, 0x1000, 0, 0, Register(0x1000, 0, 0));
    TrustworthyWhen(code, Stale(), 0x1000, 0x8000, 1);
  }

  // ---- the host ----

  /** Polls the target until it reads 101, then reads the four registers of every bundle back, and counts those
      that are wrong. */
  method HostCheck(read: History, base: nat, target: nat, count: nat,
                   ghost code: seq<Instr>, ghost s: Cpu, ghost when: nat -> nat) returns (errors: nat)
    requires Starts(code, s, base, target, count) && Interleaved(read, HistoryOf(code, s), when)
    ensures Load(s.mem, target) != DONE || RightBefore(s.mem, base, count) ==> errors == 0
  {
    ghost var seen := HistoryOf(code, s);
    ghost var fill := RunsSo(code, s, base, target, count, seen);
    TrustworthyWhen(code, s, base, target, count);
    var i := WaitFor(read, target, s.mem, base, count, fill, seen, when);
    errors := CheckBundles(read, i + 1, base, count);
    if Trustworthy(seen, base, target, count) {
      ReadsRight(read, i, base, target, count, seen, when);
    }
  }

  lemma ReadsRight(read: History, i: nat, base: nat, target: nat, count: nat, seen: History, when: nat -> nat)
    requires Interleaved(read, seen, when) && Trustworthy(seen, base, target, count) && read(i, target) == DONE
    ensures AllRead(read, i + 1, base, count)
  {
    var first := i + 1;
    forall k, j | 0 <= k < count && 0 <= j < 4 ensures ReadRight(read, first, base, k, j) {
      var m := when(first + 4 * k + j);
      assert when(i) <= m;
      assert AllRight(seen, m, base, count);
      assert RegisterRight(seen, m, base, k, j);
    }
  }

  /** The first access that finds 101: there is one, sooner or later. */
  method WaitFor(read: History, target: nat, ghost mem0: Memory, ghost base: nat, ghost count: nat,
                 ghost fill: nat, ghost seen: History, ghost when: nat -> nat) returns (i: nat)
    requires Interleaved(read, seen, when) && Timeline(seen, mem0, base, target, count, fill)
    ensures read(i, target) == DONE && forall k: nat :: k < i ==> read(k, target) != DONE
  {
    assert GetsTo(when, fill + 2);
    ghost var last: nat :| when(last) >= fill + 2;
    i := 0;
    while read(i, target) != DONE
      invariant forall k: nat :: k < i ==> read(k, target) != DONE
      decreases last - i
    {
      assert i >= last ==> when(i) >= when(last);
      assert when(i) >= fill + 2 ==> seen(when(i), target) == DONE;
      i := i + 1;
    }
  }

  /** Otherwise there is a timing that makes it count an error: every access before the program's first step. */
  lemma FoolsTheHost(code: seq<Instr>, s: Cpu, base: nat, target: nat, count: nat)
    returns (read: History, when: nat -> nat)
    requires Starts(code, s, base, target, count)
    requires Load(s.mem, target) == DONE && !RightBefore(s.mem, base, count)
    ensures Interleaved(read, HistoryOf(code, s), when) && read(0, target) == DONE && !AllRead(read, 1, base, count)
  {
    var seen := HistoryOf(code, s);
    AtOneMoment(code, s, 0, s.mem, seen);
    when := (i: nat) => if i <= 4 * count then 0 else i;
    read := ReadAt(seen, when);
    forall t: nat ensures GetsTo(when, t) {
      assert when(t + 4 * count + 1) >= t;
    }
    var k, j :| 0 <= k < count && 0 <= j < 4 && !RightAt(s.mem, base, k, j, Register(base, k, j));
    assert 1 + 4 * k + j <= 4 * count;
    assert !ReadRight(read, 1, base, k, j);
  }

  predicate ReadRight(read: History, first: nat, base: nat, k: nat, j: nat)
  {
    read(first + 4 * k + j, Register(base, k, j)) == Value(k, j)
  }

  ghost predicate AllRead(read: History, first: nat, base: nat, count: nat)
  {
    forall k, j :: 0 <= k < count && 0 <= j < 4 ==> ReadRight(read, first, base, k, j)
  }

  /** Reads the registers, from access `first` on, against a running multiple of 271 (a uint64_t, so it never
      wraps). */
  method CheckBundles(read: History, first: nat, base: nat, count: nat) returns (errors: nat)
    ensures errors == 0 <==> AllRead(read, first, base, count)
  {
    errors := 0;
    var expected := 0;
    for k := 0 to count
      invariant expected == STEP * 4 * k
      invariant errors == 0 <==> forall i, j :: 0 <= i < k && 0 <= j < 4 ==> ReadRight(read, first, base, i, j)
    {
      ghost var before := errors;
      for j := 0 to 4
        invariant expected == STEP * (4 * k + j) && errors >= before
        invariant errors == before <==> forall i :: 0 <= i < j ==> ReadRight(read, first, base, k, i)
      {
        expected := expected + STEP;
        assert ReadRight(read, first, base, k, j) <==> read(first + 4 * k + j, Register(base, k, j)) == expected;
        if read(first + 4 * k + j, Register(base, k, j)) != expected {
          errors := errors + 1;
        }
      }
    }
  }
}
