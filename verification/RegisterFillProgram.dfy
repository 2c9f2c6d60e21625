/** The hand-assembled register-fill program: what the literal words store, and that the host's
    check of the counter bundles then counts no errors. */
module RegisterFillProgram {
  import opened Machine32
  import opened Rv32i
  import opened RiscvEncoder

  const BUNDLE_SIZE: nat := 0x1000
  const STEP: nat := 271
  const DONE: nat := 101

  // ---- the program, in words and in instructions ----

  // Words 8 to 25 are not patched: set up, fill one bundle, close the loop, report, spin.
  const SETUP_WORDS: seq<nat> := [0x233, 0x82b3, 0x10f00313]
  const FILL1_WORDS: seq<nat> := [0x62a023, 0x10f30313, 0x62a223, 0x10f30313]
  const FILL2_WORDS: seq<nat> := [0x62a423, 0x10f30313, 0x62a623, 0x10f30313]
  const LOOP_WORDS: seq<nat> := [0x120213, 0x3282b3, 0xfc221ce3]
  const REPORT_WORDS: seq<nat> := [0x6500413, 0x83a023]
  const SPIN_WORDS: seq<nat> := [0x33, 0xfe000ee3]

  /** Words 0 to 7 as the test patches them. */
  function PatchedWords(base: nat, target: nat, count: nat): seq<nat>
  {
    [0x33] + [EncodeLui(1, base / 0x1000), EncodeAddi(1, 1, base % 0x1000)]
    + [EncodeLui(7, target / 0x1000), EncodeAddi(7, 7, target % 0x1000)]
    + [EncodeAddi(2, 0, count), EncodeLui(3, BUNDLE_SIZE / 0x1000), EncodeAddi(3, 3, BUNDLE_SIZE % 0x1000)]
  }

  function Program(base: nat, target: nat, count: nat): seq<nat>
  {
    PatchedWords(base, target, count)
    + SETUP_WORDS + FILL1_WORDS + FILL2_WORDS + LOOP_WORDS + REPORT_WORDS + SPIN_WORDS
  }

  const SETUP: seq<Instr> := [Add(4, 0, 0), Add(5, 1, 0), Addi(6, 0, 271)]
  const FILL1: seq<Instr> := [Sw(6, 5, 0), Addi(6, 6, 271), Sw(6, 5, 4), Addi(6, 6, 271)]
  const FILL2: seq<Instr> := [Sw(6, 5, 8), Addi(6, 6, 271), Sw(6, 5, 12), Addi(6, 6, 271)]
  const LOOP: seq<Instr> := [Addi(4, 4, 1), Add(5, 5, 3), Bne(4, 2, -40)]
  const REPORT: seq<Instr> := [Addi(8, 0, 101), Sw(8, 7, 0)]
  const SPIN: seq<Instr> := [Add(0, 0, 0), Beq(0, 0, -4)]

  function CountCode(count: nat): seq<Instr>
  {
    [Addi(2, 0, SignExtend(count, 2048)), Lui(3, 1), Addi(3, 3, 0)]
  }

  function Code(base: nat, target: nat, count: nat): seq<Instr>
  {
    [Add(0, 0, 0)] + AddressCode(1, base / 0x1000 % 0x10_0000, base % 0x1000)
    + AddressCode(7, target / 0x1000 % 0x10_0000, target % 0x1000) + CountCode(count % 0x1000)
    + SETUP + FILL1 + FILL2 + LOOP + REPORT + SPIN
  }

  lemma SetupDecodes()
    ensures DecodeAll(SETUP_WORDS) == SETUP
  {
    Assembled(0x233, 0x33, 4, 0, 0, 0, 0);
    Assembled(0x82b3, 0x33, 5, 0, 1, 0, 0);
    Assembled(0x10f00313, 0x13, 6, 0, 0, 15, 8);
    ThreeDecoded(0x233, 0x82b3, 0x10f00313, SETUP);
  }

  lemma Fill1Decodes()
    ensures DecodeAll(FILL1_WORDS) == FILL1
  {
    Assembled(0x62a023, 0x23, 0, 2, 5, 6, 0);
    Assembled(0x10f30313, 0x13, 6, 0, 6, 15, 8);
    Assembled(0x62a223, 0x23, 4, 2, 5, 6, 0);
  }

  lemma Fill2Decodes()
    ensures DecodeAll(FILL2_WORDS) == FILL2
  {
    Assembled(0x62a423, 0x23, 8, 2, 5, 6, 0);
    Assembled(0x10f30313, 0x13, 6, 0, 6, 15, 8);
    Assembled(0x62a623, 0x23, 12, 2, 5, 6, 0);
  }

  lemma LoopDecodes()
    ensures DecodeAll(LOOP_WORDS) == LOOP
  {
    Assembled(0x120213, 0x13, 4, 0, 4, 1, 0);
    Assembled(0x3282b3, 0x33, 5, 0, 5, 3, 0);
    Assembled(0xfc221ce3, 0x63, 25, 1, 4, 2, 126);
    ThreeDecoded(0x120213, 0x3282b3, 0xfc221ce3, LOOP);
  }

  lemma ReportDecodes()
    ensures DecodeAll(REPORT_WORDS) == REPORT
  {
    Assembled(0x6500413, 0x13, 8, 0, 0, 5, 3);
    Assembled(0x83a023, 0x23, 0, 2, 7, 8, 0);
  }

  lemma SpinDecodes()
    ensures DecodeAll(SPIN_WORDS) == SPIN
  {
    Assembled(0x33, 0x33, 0, 0, 0, 0, 0);
    Assembled(0xfe000ee3, 0x63, 29, 0, 0, 0, 127);
  }

  lemma CountDecodes(count: nat, count': nat, hi: nat, lo: nat)
    requires count' == count % 0x1000 && hi == 1 && lo == 0
    ensures DecodeAll([EncodeAddi(2, 0, count), EncodeLui(3, hi), EncodeAddi(3, 3, lo)]) == CountCode(count')
  {
    AddiRoundTrip(2, 0, count, 2, 0, count');
    LuiRoundTrip(3, hi, 3, 1);
    AddiRoundTrip(3, 3, lo, 3, 3, 0);
    ThreeDecoded(EncodeAddi(2, 0, count), EncodeLui(3, hi), EncodeAddi(3, 3, lo), CountCode(count'));
  }

  lemma ThreeDecoded(w0: nat, w1: nat, w2: nat, code: seq<Instr>)
    requires |code| == 3 && Decode(w0) == code[0] && Decode(w1) == code[1] && Decode(w2) == code[2]
    ensures DecodeAll([w0, w1, w2]) == code
  {
  }

  /** The literal words, patched, decode to this code. */
  lemma ProgramDecodes(base: nat, target: nat, count: nat)
    ensures DecodeAll(Program(base, target, count)) == Code(base, target, count)
  {
    var (b, l, t, m) := (base / 0x1000, base % 0x1000, target / 0x1000, target % 0x1000);
    assert l == l % 0x1000 && m == m % 0x1000;
    NopDecodes();
    AddressDecodes(1, b, l, b % 0x10_0000, l);
    AddressDecodes(7, t, m, t % 0x10_0000, m);
    var (hi, lo) := (BUNDLE_SIZE / 0x1000, BUNDLE_SIZE % 0x1000);
    CountDecodes(count, count % 0x1000, hi, lo);
    var w1, w2 := [EncodeLui(1, b), EncodeAddi(1, 1, l)], [EncodeLui(7, t), EncodeAddi(7, 7, m)];
    var w3 := [EncodeAddi(2, 0, count), EncodeLui(3, hi), EncodeAddi(3, 3, lo)];
    var head := [0x33] + w1 + w2 + w3;
    Glue([0x33], w1, w2, w3);
    BodyDecodes(head);
  }

  lemma BodyDecodes(head: seq<nat>)
    ensures DecodeAll(head + SETUP_WORDS + FILL1_WORDS + FILL2_WORDS + LOOP_WORDS + REPORT_WORDS + SPIN_WORDS)
            == DecodeAll(head) + SETUP + FILL1 + FILL2 + LOOP + REPORT + SPIN
  {
    SetupDecodes();
    Fill1Decodes();
    Fill2Decodes();
    LoopDecodes();
    ReportDecodes();
    SpinDecodes();
    Glue(head, SETUP_WORDS, FILL1_WORDS, FILL2_WORDS);
    Glue(head + SETUP_WORDS + FILL1_WORDS + FILL2_WORDS, LOOP_WORDS, REPORT_WORDS, SPIN_WORDS);
  }

  /** What words 8 to 25 say. */
  predicate IsFiller(code: seq<Instr>)
  {
    && |code| == 26
    && code[8] == Add(4, 0, 0) && code[9] == Add(5, 1, 0) && code[10] == Addi(6, 0, 271)
    && code[11] == Sw(6, 5, 0) && code[12] == Addi(6, 6, 271) && code[13] == Sw(6, 5, 4) && code[14] == Addi(6, 6, 271)
    && code[15] == Sw(6, 5, 8) && code[16] == Addi(6, 6, 271) && code[17] == Sw(6, 5, 12) && code[18] == Addi(6, 6, 271)
    && code[19] == Addi(4, 4, 1) && code[20] == Add(5, 5, 3) && code[21] == Bne(4, 2, -40)
    && code[22] == Addi(8, 0, 101) && code[23] == Sw(8, 7, 0)
    && code[24] == Add(0, 0, 0) && code[25] == Beq(0, 0, -4)
  }

  /** What the patched words 0 to 7 say. */
  predicate IsPatched(code: seq<Instr>, base: nat, target: nat, count: nat)
  {
    && |code| == 26 && code[0] == Add(0, 0, 0)
    && code[1] == Lui(1, base / 0x1000 % 0x10_0000) && code[2] == Addi(1, 1, SignExtend(base % 0x1000, 2048))
    && code[3] == Lui(7, target / 0x1000 % 0x10_0000) && code[4] == Addi(7, 7, SignExtend(target % 0x1000, 2048))
    && code[5] == Addi(2, 0, SignExtend(count % 0x1000, 2048)) && code[6] == Lui(3, 1) && code[7] == Addi(3, 3, 0)
  }

  lemma CodeIs(base: nat, target: nat, count: nat)
    ensures IsFiller(Code(base, target, count)) && IsPatched(Code(base, target, count), base, target, count)
  {
    var patch := [Add(0, 0, 0)] + AddressCode(1, base / 0x1000 % 0x10_0000, base % 0x1000)
      + AddressCode(7, target / 0x1000 % 0x10_0000, target % 0x1000) + CountCode(count % 0x1000);
    FillerAfter(patch);
  }

  lemma FillerAfter(patch: seq<Instr>)
    requires |patch| == 8
    ensures var code := patch + SETUP + FILL1 + FILL2 + LOOP + REPORT + SPIN;
      IsFiller(code) && forall k :: 0 <= k < 8 ==> code[k] == patch[k]
  {
  }

  // ---- what the registers should hold ----

  /** The value register j of bundle k gets. */
  function Value(k: nat, j: nat): nat { STEP * (4 * k + j + 1) }

  /** Register j of bundle k. */
  function Register(base: nat, k: nat, j: nat): nat { base + BUNDLE_SIZE * k + 4 * j }

  /** Address x is one of the four registers of one of the first n bundles. */
  predicate InBundles(x: nat, base: nat, n: nat)
  {
    base <= x < base + BUNDLE_SIZE * n && (x - base) % BUNDLE_SIZE in {0, 4, 8, 12}
  }

  /** The registers of the first n bundles are filled, and memory is otherwise as in mem0. */
  ghost predicate Filled(mem: Memory, mem0: Memory, base: nat, n: nat)
  {
    && (forall k, j :: 0 <= k < n && 0 <= j < 4 ==> Load(mem, Register(base, k, j)) == Value(k, j))
    && (forall x: nat :: !InBundles(x, base, n) ==> Load(mem, x) == Load(mem0, x))
  }

  /** Storing bundle n on top of the first n. */
  function StoreBundle(mem: Memory, base: nat, n: nat): Memory
  {
    mem[Register(base, n, 0) := Value(n, 0)][Register(base, n, 1) := Value(n, 1)]
       [Register(base, n, 2) := Value(n, 2)][Register(base, n, 3) := Value(n, 3)]
  }

  lemma FillOneMore(mem: Memory, mem0: Memory, base: nat, n: nat)
    requires Filled(mem, mem0, base, n)
    ensures Filled(StoreBundle(mem, base, n), mem0, base, n + 1)
  {
    var mem' := StoreBundle(mem, base, n);
    forall k, j | 0 <= k < n + 1 && 0 <= j < 4 ensures Load(mem', Register(base, k, j)) == Value(k, j) {
      RegisterApart(base, n, k, j);
    }
    forall x: nat | !InBundles(x, base, n + 1) ensures Load(mem', x) == Load(mem0, x) {
      forall j | 0 <= j < 4 ensures x != Register(base, n, j) {
        RegisterInBundles(base, n, j);
      }
      assert !InBundles(x, base, n);
    }
  }

  lemma RegisterInBundles(base: nat, k: nat, j: nat)
    requires j < 4
    ensures InBundles(Register(base, k, j), base, k + 1)
  {
    assert Register(base, k, j) - base == BUNDLE_SIZE * k + 4 * j;
  }

  lemma RegisterApart(base: nat, n: nat, k: nat, j: nat)
    requires k <= n && j < 4
    ensures k < n ==> forall i :: 0 <= i < 4 ==> Register(base, k, j) != Register(base, n, i)
  {
  }

  // ---- symbolic execution ----

  /** Everything in place: aligned registers that do not wrap around, and a target among none of them. */
  predicate Placed(base: nat, target: nat, count: nat)
  {
    && 0 < count && base % 4 == 0 && base + BUNDLE_SIZE * count <= TWO32
    && target < TWO32 && target % 4 == 0 && !InBundles(target, base, count)
  }

  /** Register j of bundle k is address x, and already holds what it should. */
  predicate RightAt(mem: Memory, base: nat, k: nat, j: nat, x: nat)
  {
    x == Register(base, k, j) && Load(mem, x) == Value(k, j)
  }

  predicate AlreadyRight(mem: Memory, base: nat, count: nat, x: nat)
  {
    exists k, j :: 0 <= k < count && 0 <= j < 4 && RightAt(mem, base, k, j, x)
  }

  /** The addresses that no step changes: those outside the bundles, the target among them, and the registers
      that are right in `mem0`. */
  ghost function Steady(base: nat, count: nat, mem0: Memory): iset<nat>
  {
    iset x: nat | !InBundles(x, base, count) || AlreadyRight(mem0, base, count, x)
  }

  /** At word 11, about to fill bundle n: x2 the count, x3 the stride, x4 the bundle number, x5 its
      address, x6 the next value, x7 the target. */
  ghost predicate AtBundle(s: Cpu, base: nat, target: nat, count: nat, n: nat, mem0: Memory)
  {
    && s.Valid() && s.pc == 44 && s.regs[2] == count && s.regs[3] == BUNDLE_SIZE && s.regs[4] == n
    && s.regs[5] == Register(base, n, 0) && s.regs[6] == Value(n, 0) && s.regs[7] == target
    && Filled(s.mem, mem0, base, n) && Placed(base, target, count) && n < count < 0x800
  }

  lemma RegisterQuiet(base: nat, target: nat, count: nat, n: nat, j: nat)
    requires Placed(base, target, count) && n < count && j < 4
    ensures InBundles(Register(base, n, j), base, count) && Register(base, n, j) != target
    ensures Register(base, n, j) < TWO32 && Register(base, n, j) % 4 == 0
  {
    RegisterInBundles(base, n, j);
    assert BUNDLE_SIZE * (n + 1) <= BUNDLE_SIZE * count;
    assert InBundles(Register(base, n, j), base, count);
    StaysAligned(base, n, j);
  }

  lemma StaysAligned(base: nat, n: nat, j: nat)
    requires base % 4 == 0
    ensures Register(base, n, j) % 4 == 0
  {
    assert Register(base, n, j) == base + 4 * (BUNDLE_SIZE / 4 * n + j);
  }

  lemma SameRegister(base: nat, n: nat, j: nat, k: nat, i: nat)
    requires j < 4 && i < 4 && Register(base, n, j) == Register(base, k, i)
    ensures n == k && j == i
  {
  }

  lemma StoreSteady(mem: Memory, base: nat, target: nat, count: nat, n: nat, j: nat, mem0: Memory)
    requires Placed(base, target, count) && n < count && j < 4
    requires Load(mem, Register(base, n, j)) == Load(mem0, Register(base, n, j))
    ensures Agree(mem, mem[Register(base, n, j) := Value(n, j)], Steady(base, count, mem0))
  {
    var x := Register(base, n, j);
    RegisterQuiet(base, target, count, n, j);
    if AlreadyRight(mem0, base, count, x) {
      var k, i :| 0 <= k < count && 0 <= i < 4 && RightAt(mem0, base, k, i, x);
      SameRegister(base, n, j, k, i);
    }
  }

  /** A store to register j of bundle n and the next value in x6. */
  lemma StoreAndAdd(code: seq<Instr>, s: Cpu, base: nat, target: nat, count: nat, n: nat, j: nat, mem0: Memory)
    returns (s': Cpu)
    requires |code| == 26 && s.Valid() && s.pc == 44 + 8 * j && j < 4 && n < count < 0x800
    requires code[11 + 2 * j] == Sw(6, 5, 4 * j) && code[12 + 2 * j] == Addi(6, 6, 271)
    requires s.regs[5] == Register(base, n, 0) && s.regs[6] == Value(n, j) && Placed(base, target, count)
    requires Load(s.mem, Register(base, n, j)) == Load(mem0, Register(base, n, j))
    ensures Reaches(code, s, s', Steady(base, count, mem0)) && s'.Valid() && s'.pc == s.pc + 8
    ensures s'.regs == s.regs[6 := Value(n, j + 1)]
    ensures s'.mem == s.mem[Register(base, n, j) := Value(n, j)]
  {
    RegisterQuiet(base, target, count, n, j);
    var s1 := DoSw(code, s, 6, 5, 4 * j, Register(base, n, j));
    s' := DoAddi(code, s1, 6, 6, 271);
    StoreSteady(s.mem, base, target, count, n, j, mem0);
    assert Value(n, j) + 271 == Value(n, j + 1) < TWO32;
    TraceReaches(code, [s, s1, s'], Steady(base, count, mem0));
  }

  lemma NotYetStored(mem: Memory, mem0: Memory, base: nat, n: nat)
    requires Filled(mem, mem0, base, n)
    ensures forall j :: 0 <= j < 4 ==> Load(mem, Register(base, n, j)) == Load(mem0, Register(base, n, j))
  {
    forall j | 0 <= j < 4 ensures !InBundles(Register(base, n, j), base, n) {
    }
  }

  /** Words 11 to 18: one bundle. */
  lemma OneBundle(code: seq<Instr>, s: Cpu, base: nat, target: nat, count: nat, n: nat, mem0: Memory) returns (s': Cpu)
    requires IsFiller(code) && AtBundle(s, base, target, count, n, mem0)
    ensures Reaches(code, s, s', Steady(base, count, mem0)) && s'.Valid() && s'.pc == 76
    ensures s'.regs == s.regs[6 := Value(n + 1, 0)] && s'.mem == StoreBundle(s.mem, base, n)
  {
    var quiet := Steady(base, count, mem0);
    NotYetStored(s.mem, mem0, base, n);
    var s1 := StoreAndAdd(code, s, base, target, count, n, 0, mem0);
    var s2 := StoreAndAdd(code, s1, base, target, count, n, 1, mem0);
    Then(code, s, s1, s2, quiet);
    var s3 := StoreAndAdd(code, s2, base, target, count, n, 2, mem0);
    Then(code, s, s2, s3, quiet);
    s' := StoreAndAdd(code, s3, base, target, count, n, 3, mem0);
    Then(code, s, s3, s', quiet);
    assert Value(n, 4) == Value(n + 1, 0);
  }

  /** Words 19 to 21: on to the next bundle, or out of the loop. */
  lemma NextBundle(code: seq<Instr>, s: Cpu, base: nat, target: nat, count: nat, n: nat, mem0: Memory)
    returns (s': Cpu)
    requires IsFiller(code) && s.Valid() && s.pc == 76 && Placed(base, target, count) && n < count < 0x800
    requires s.regs[2] == count && s.regs[3] == BUNDLE_SIZE && s.regs[4] == n && s.regs[5] == Register(base, n, 0)
    ensures Reaches(code, s, s', Steady(base, count, mem0)) && s'.Valid() && s'.mem == s.mem
    ensures s'.pc == if n + 1 < count then 44 else 88
    ensures s'.regs[2] == count && s'.regs[3] == BUNDLE_SIZE && s'.regs[4] == n + 1
    ensures s'.regs[6] == s.regs[6] && s'.regs[7] == s.regs[7]
    ensures n + 1 < count ==> s'.regs[5] == Register(base, n + 1, 0)
  {
    var s1 := DoAddi(code, s, 4, 4, 1);
    var s2 := DoAdd(code, s1, 5, 5, 3);
    s' := DoBranch(code, s2, Bne(4, 2, -40), n + 1 != count);
    if n + 1 < count {
      RegisterQuiet(base, target, count, n + 1, 0);
      assert Register(base, n, 0) + BUNDLE_SIZE == Register(base, n + 1, 0);
    }
    TraceReaches(code, [s, s1, s2, s'], Steady(base, count, mem0));
  }

  /** Words 11 to 21: the remaining bundles, with every other address untouched throughout. */
  lemma {:induction false} FillLoop(code: seq<Instr>, s: Cpu, base: nat, target: nat, count: nat, n: nat, mem0: Memory)
    returns (s': Cpu)
    requires IsFiller(code) && AtBundle(s, base, target, count, n, mem0)
    ensures Reaches(code, s, s', Steady(base, count, mem0))
    ensures s'.Valid() && s'.pc == 88 && s'.regs[7] == target && Filled(s'.mem, mem0, base, count)
    decreases count - n
  {
    var quiet := Steady(base, count, mem0);
    var mid := OneBundle(code, s, base, target, count, n, mem0);
    FillOneMore(s.mem, mem0, base, n);
    s' := NextBundle(code, mid, base, target, count, n, mem0);
    Then(code, s, mid, s', quiet);
    if n + 1 < count {
      var again := s';
      s' := FillLoop(code, again, base, target, count, n + 1, mem0);
      Then(code, s, again, s', quiet);
    }
  }

  /** Words 8 to 10. */
  lemma Setup(code: seq<Instr>, s: Cpu, base: nat, target: nat, count: nat) returns (s': Cpu)
    requires IsFiller(code) && s.Valid() && s.pc == 32 && Placed(base, target, count) && count < 0x800
    requires s.regs[1] == base && s.regs[2] == count && s.regs[3] == BUNDLE_SIZE && s.regs[7] == target
    ensures Reaches(code, s, s', Steady(base, count, s.mem)) && AtBundle(s', base, target, count, 0, s.mem)
  {
    var s1 := DoAdd(code, s, 4, 0, 0);
    var s2 := DoAdd(code, s1, 5, 1, 0);
    s' := DoAddi(code, s2, 6, 0, 271);
    TraceReaches(code, [s, s1, s2, s'], Steady(base, count, s.mem));
  }

  /** Two more steps lead to the spin: one that leaves memory as it is, and one that writes 101 to the target. */
  ghost predicate Reports(code: seq<Instr>, filled: Cpu, target: nat, done: Cpu)
  {
    && filled.Valid() && filled.pc == 88 && done.Valid() && done.pc == 96
    && Steps(code, filled, 1).Next? && Steps(code, filled, 1).cpu.mem == filled.mem
    && Steps(code, filled, 2) == Next(done) && done.mem == filled.mem[target := DONE]
  }

  /** Words 22 and 23: report that all registers are written. */
  lemma Report(code: seq<Instr>, s: Cpu, target: nat) returns (s': Cpu)
    requires IsFiller(code) && s.Valid() && s.pc == 88 && s.regs[7] == target < TWO32 && target % 4 == 0
    ensures Reports(code, s, target, s')
  {
    var s1 := DoAddi(code, s, 8, 0, 101);
    s' := DoSw(code, s1, 8, 7, 0, target);
    assert Steps(code, s, 1) == Next(s1) && Steps(code, s1, 1) == Next(s');
  }

  // ---- the main results ----

  /** From word 8 on: the program first fills every register of every bundle, and at no step touches
      anything else, the target included; only then does it write 101 to the target. */
  lemma FillsThenReports(code: seq<Instr>, s: Cpu, base: nat, target: nat, count: nat) returns (filled: Cpu, done: Cpu)
    requires IsFiller(code) && s.Valid() && s.pc == 32 && Placed(base, target, count) && count < 0x800
    requires s.regs[1] == base && s.regs[2] == count && s.regs[3] == BUNDLE_SIZE && s.regs[7] == target
    ensures Reaches(code, s, filled, Steady(base, count, s.mem)) && Filled(filled.mem, s.mem, base, count)
    ensures Reports(code, filled, target, done)
  {
    var start := Setup(code, s, base, target, count);
    filled := FillLoop(code, start, base, target, count, 0, s.mem);
    Then(code, s, start, filled, Steady(base, count, s.mem));
    done := Report(code, filled, target);
  }

  /** Once at the spin (words 24 and 25) the program stays there and memory stays as it is. */
  lemma {:induction false} SpinForever(code: seq<Instr>, s: Cpu, n: nat)
    requires IsFiller(code) && s.Valid() && s.pc in {96, 100}
    ensures Steps(code, s, n).Next?
    ensures var s' := Steps(code, s, n).cpu; s'.Valid() && s'.pc in {96, 100} && s'.mem == s.mem
    decreases n
  {
    if n > 0 {
      SpinForever(code, Step(code, s).cpu, n - 1);
    }
  }

  /** What the patched words 0 to 7 leave in x1, x2, x3 and x7. */
  lemma Prefix(code: seq<Instr>, base: nat, target: nat, count: nat, s: Cpu) returns (s': Cpu)
    requires IsPatched(code, base, target, count) && base < TWO32 && target < TWO32 && s.Valid() && s.pc == 0
    ensures Reaches(code, s, s', Steady(base, count, s.mem)) && s'.Valid() && s'.pc == 32 && s'.mem == s.mem
    ensures s'.regs[1] == U32(base - (if base % 0x1000 < 0x800 then 0 else 0x1000))
    ensures s'.regs[7] == U32(target - (if target % 0x1000 < 0x800 then 0 else 0x1000))
    ensures s'.regs[2] == U32(SignExtend(count % 0x1000, 2048)) && s'.regs[3] == BUNDLE_SIZE
  {
    var s1 := DoAdd(code, s, 0, 0, 0);
    var s3 := LoadAddress(code, s1, 1, base);
    var s5 := LoadAddress(code, s3, 7, target);
    var s6 := DoAddi(code, s5, 2, 0, SignExtend(count % 0x1000, 2048));
    var s7 := DoLui(code, s6, 3, 1);
    s' := DoAddi(code, s7, 3, 3, 0);
    OneStep(code, s, s1, Steady(base, count, s.mem));
    Quieter(code, s1, s3, EVERYWHERE, Steady(base, count, s.mem));
    Then(code, s, s1, s3, Steady(base, count, s.mem));
    Quieter(code, s3, s5, EVERYWHERE, Steady(base, count, s.mem));
    Then(code, s, s3, s5, Steady(base, count, s.mem));
    TraceReaches(code, [s5, s6, s7, s'], Steady(base, count, s.mem));
    Then(code, s, s5, s', Steady(base, count, s.mem));
  }

  /** The count survives its 12-bit immediate exactly up to 2047. */
  lemma CountFits(count: nat)
    requires count < TWO32
    ensures U32(SignExtend(count % 0x1000, 2048)) == count <==> count < 0x800 || count >= TWO32 - 0x800
  {
  }

  lemma PrefixOfPlaced(code: seq<Instr>, base: nat, target: nat, count: nat, s: Cpu) returns (s': Cpu)
    requires IsPatched(code, base, target, count) && Placed(base, target, count) && s.Valid() && s.pc == 0
    requires count < 0x800 && base % 0x1000 < 0x800 && target % 0x1000 < 0x800
    ensures Reaches(code, s, s', Steady(base, count, s.mem)) && s'.Valid() && s'.pc == 32 && s'.mem == s.mem
    ensures s'.regs[1] == base && s'.regs[7] == target && s'.regs[2] == count && s'.regs[3] == BUNDLE_SIZE
  {
    assert base < TWO32;
    s' := Prefix(code, base, target, count, s);
    CountFits(count);
  }

  lemma PatchedFills(code: seq<Instr>, base: nat, target: nat, count: nat, s: Cpu) returns (filled: Cpu, done: Cpu)
    requires IsFiller(code) && IsPatched(code, base, target, count)
    requires Placed(base, target, count) && count < 0x800 && base % 0x1000 < 0x800 && target % 0x1000 < 0x800
    requires s.Valid() && s.pc == 0
    ensures Reaches(code, s, filled, Steady(base, count, s.mem)) && Filled(filled.mem, s.mem, base, count)
    ensures Reports(code, filled, target, done)
  {
    var start := PrefixOfPlaced(code, base, target, count, s);
    filled, done := FillsThenReports(code, start, base, target, count);
    Then(code, s, start, filled, Steady(base, count, s.mem));
  }

  lemma CodeFills(base: nat, target: nat, count: nat, s: Cpu) returns (filled: Cpu, done: Cpu)
    requires Placed(base, target, count) && count < 0x800 && base % 0x1000 < 0x800 && target % 0x1000 < 0x800
    requires s.Valid() && s.pc == 0
    ensures Reaches(Code(base, target, count), s, filled, Steady(base, count, s.mem))
    ensures Filled(filled.mem, s.mem, base, count) && Reports(Code(base, target, count), filled, target, done)
  {
    CodeIs(base, target, count);
    filled, done := PatchedFills(Code(base, target, count), base, target, count, s);
  }

  /** The whole patched program, from its first word, for every count from 1 to 2047. */
  lemma ProgramFills(base: nat, target: nat, count: nat, s: Cpu) returns (filled: Cpu, done: Cpu)
    requires Placed(base, target, count) && count < 0x800 && base % 0x1000 < 0x800 && target % 0x1000 < 0x800
    requires s.Valid() && s.pc == 0
    ensures Reaches(DecodeAll(Program(base, target, count)), s, filled, Steady(base, count, s.mem))
    ensures Filled(filled.mem, s.mem, base, count)
    ensures Reports(DecodeAll(Program(base, target, count)), filled, target, done)
    ensures forall k, j :: 0 <= k < count && 0 <= j < 4 ==> HoldsMultiple(filled.mem, base, k, j)
    ensures Load(done.mem, target) == 101
  {
    ProgramDecodes(base, target, count);
    filled, done := CodeFills(base, target, count, s);
    forall k, j | 0 <= k < count && 0 <= j < 4 ensures HoldsMultiple(filled.mem, base, k, j) {
      FilledAt(filled.mem, s.mem, base, count, k, j);
    }
  }

  /** Bundles are 4096 bytes apart, and their four registers hold the multiples of 271 in order. */
  predicate HoldsMultiple(mem: Memory, base: nat, k: nat, j: nat)
  {
    Load(mem, base + 0x1000 * k + 4 * j) == 271 * (4 * k + j + 1)
  }

  lemma FilledAt(mem: Memory, mem0: Memory, base: nat, n: nat, k: nat, j: nat)
    requires Filled(mem, mem0, base, n) && k < n && j < 4
    ensures HoldsMultiple(mem, base, k, j)
  {
    assert Load(mem, Register(base, k, j)) == Value(k, j);
  }
}
