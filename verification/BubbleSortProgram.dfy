/** The hand-assembled bubble sort: the literal instruction words, patched by the encoders, do what
    the golden C routine does. */
module BubbleSortProgram {
  import opened Machine32
  import opened Rv32i
  import opened RiscvEncoder
  import opened BubbleSort

  // ---- the program, in words and in instructions ----

  // Words 4 to 18 are not patched: set up a pass, compare, swap, close the two loops, spin.
  const START_WORDS: seq<nat> := [0x8333, 0x2b3]
  const COMPARE_WORDS: seq<nat> := [0x32203, 0x432183, 0x41f863]
  const SWAP_WORDS: seq<nat> := [0x332023, 0x432223, 0x100293]
  const INNER_WORDS: seq<nat> := [0x430313, 0xfe2312e3]
  const OUTER_WORDS: seq<nat> := [0x28663, 0xffc10113, 0xfc1118e3]
  const SPIN_WORDS: seq<nat> := [0x33, 0xfe000ee3]

  /** Words 0 to 3 as the test patches them; `last` is the byte offset of the last array element. */
  function PatchedWords(base: nat, last: nat): seq<nat>
  {
    [0x33] + [EncodeLui(1, base / 0x1000), EncodeAddi(1, 1, base % 0x1000)] + [EncodeAddi(2, 1, last)]
  }

  /** The whole program, as the test patches it for an array of `len` words at `base`. */
  function Program(base: nat, len: nat): seq<nat>
    requires len >= 1
  {
    PatchedWords(base, U32((len - 1) * 4))
    + START_WORDS + COMPARE_WORDS + SWAP_WORDS + INNER_WORDS + OUTER_WORDS + SPIN_WORDS
  }

  const START: seq<Instr> := [Add(6, 1, 0), Add(5, 0, 0)]
  const COMPARE: seq<Instr> := [Lw(4, 6, 0), Lw(3, 6, 4), Bgeu(3, 4, 16)]
  const SWAP: seq<Instr> := [Sw(3, 6, 0), Sw(4, 6, 4), Addi(5, 0, 1)]
  const INNER: seq<Instr> := [Addi(6, 6, 4), Bne(6, 2, -28)]
  const OUTER: seq<Instr> := [Beq(5, 0, 12), Addi(2, 2, -4), Bne(2, 1, -48)]
  const SPIN: seq<Instr> := [Add(0, 0, 0), Beq(0, 0, -4)]

  function PatchedCode(base: nat, last: nat): seq<Instr>
  {
    [Add(0, 0, 0)] + AddressCode(1, base / 0x1000 % 0x10_0000, base % 0x1000)
    + [Addi(2, 1, SignExtend(last % 0x1000, 2048))]
  }

  function Code(base: nat, len: nat): seq<Instr>
    requires len >= 1
  {
    PatchedCode(base, U32((len - 1) * 4)) + START + COMPARE + SWAP + INNER + OUTER + SPIN
  }

  lemma StartDecodes()
    ensures DecodeAll(START_WORDS) == START
  {
    Assembled(0x8333, 0x33, 6, 0, 1, 0, 0);
    Assembled(0x2b3, 0x33, 5, 0, 0, 0, 0);
  }

  lemma SpinDecodes()
    ensures DecodeAll(SPIN_WORDS) == SPIN
  {
    Assembled(0x33, 0x33, 0, 0, 0, 0, 0);
    Assembled(0xfe000ee3, 0x63, 29, 0, 0, 0, 127);
  }

  lemma CompareDecodes()
    ensures DecodeAll(COMPARE_WORDS) == COMPARE
  {
    Assembled(0x32203, 0x03, 4, 2, 6, 0, 0);
    Assembled(0x432183, 0x03, 3, 2, 6, 4, 0);
    Assembled(0x41f863, 0x63, 16, 7, 3, 4, 0);
  }

  lemma SwapDecodes()
    ensures DecodeAll(SWAP_WORDS) == SWAP
  {
    Assembled(0x332023, 0x23, 0, 2, 6, 3, 0);
    Assembled(0x432223, 0x23, 4, 2, 6, 4, 0);
    Assembled(0x100293, 0x13, 5, 0, 0, 1, 0);
  }

  lemma InnerDecodes()
    ensures DecodeAll(INNER_WORDS) == INNER
  {
    Assembled(0x430313, 0x13, 6, 0, 6, 4, 0);
    Assembled(0xfe2312e3, 0x63, 5, 1, 6, 2, 127);
  }

  lemma OuterDecodes()
    ensures DecodeAll(OUTER_WORDS) == OUTER
  {
    Assembled(0x28663, 0x63, 12, 0, 5, 0, 0);
    StepDownDecodes();
    AgainDecodes();
  }

  lemma StepDownDecodes()
    ensures Decode(0xffc10113) == Addi(2, 2, -4)
  {
    Assembled(0xffc10113, 0x13, 2, 0, 2, 28, 127);
  }

  lemma AgainDecodes()
    ensures Decode(0xfc1118e3) == Bne(2, 1, -48)
  {
    Assembled(0xfc1118e3, 0x63, 17, 1, 2, 1, 126);
  }

  lemma LastWordDecodes(last: nat, last': nat)
    requires last' == last % 0x1000
    ensures DecodeAll([EncodeAddi(2, 1, last)]) == [Addi(2, 1, SignExtend(last', 2048))]
  {
    AddiRoundTrip(2, 1, last, 2, 1, last');
    OneDecoded(EncodeAddi(2, 1, last), Addi(2, 1, SignExtend(last', 2048)));
  }

  lemma PatchedDecodes(base: nat, last: nat)
    ensures DecodeAll(PatchedWords(base, last)) == PatchedCode(base, last)
  {
    var upper, lower := base / 0x1000, base % 0x1000;
    assert lower == lower % 0x1000;
    NopDecodes();
    AddressDecodes(1, upper, lower, upper % 0x10_0000, lower);
    LastWordDecodes(last, last % 0x1000);
    Glue([0x33], [EncodeLui(1, upper), EncodeAddi(1, 1, lower)], [EncodeAddi(2, 1, last)], []);
    assert PatchedWords(base, last) + [] == PatchedWords(base, last) && DecodeAll([]) == [];
  }

  /** The literal words, patched, decode to this code. */
  lemma ProgramDecodes(base: nat, len: nat)
    requires len >= 1
    ensures DecodeAll(Program(base, len)) == Code(base, len)
  {
    PatchedDecodes(base, U32((len - 1) * 4));
    BodyDecodes(PatchedWords(base, U32((len - 1) * 4)));
  }

  lemma BodyDecodes(head: seq<nat>)
    ensures DecodeAll(head + START_WORDS + COMPARE_WORDS + SWAP_WORDS + INNER_WORDS + OUTER_WORDS + SPIN_WORDS)
            == DecodeAll(head) + START + COMPARE + SWAP + INNER + OUTER + SPIN
  {
    StartDecodes();
    SpinDecodes();
    CompareDecodes();
    SwapDecodes();
    InnerDecodes();
    OuterDecodes();
    Glue(head, START_WORDS, COMPARE_WORDS, SWAP_WORDS);
    Glue(head + START_WORDS + COMPARE_WORDS + SWAP_WORDS, INNER_WORDS, OUTER_WORDS, SPIN_WORDS);
  }

  /** What words 4 to 18 say. */
  predicate IsSorter(code: seq<Instr>)
  {
    && |code| == 19
    && code[4] == Add(6, 1, 0) && code[5] == Add(5, 0, 0)
    && code[6] == Lw(4, 6, 0) && code[7] == Lw(3, 6, 4) && code[8] == Bgeu(3, 4, 16)
    && code[9] == Sw(3, 6, 0) && code[10] == Sw(4, 6, 4) && code[11] == Addi(5, 0, 1)
    && code[12] == Addi(6, 6, 4) && code[13] == Bne(6, 2, -28)
    && code[14] == Beq(5, 0, 12) && code[15] == Addi(2, 2, -4) && code[16] == Bne(2, 1, -48)
    && code[17] == Add(0, 0, 0) && code[18] == Beq(0, 0, -4)
  }

  /** What the patched words 0 to 3 say. */
  predicate IsPatched(code: seq<Instr>, base: nat, len: nat)
    requires len >= 1
  {
    && |code| == 19 && code[0] == Add(0, 0, 0)
    && code[1] == Lui(1, base / 0x1000 % 0x10_0000)
    && code[2] == Addi(1, 1, SignExtend(base % 0x1000, 2048))
    && code[3] == Addi(2, 1, SignExtend(U32((len - 1) * 4) % 0x1000, 2048))
  }

  lemma CodeIs(base: nat, len: nat)
    requires len >= 1
    ensures IsSorter(Code(base, len)) && IsPatched(Code(base, len), base, len)
  {
  }

  // ---- symbolic execution ----

  /** The word array at `base`. */
  ghost predicate Array(mem: Memory, base: nat, a: seq<nat>)
  {
    forall j :: 0 <= j < |a| ==> Load(mem, base + 4 * j) == a[j]
  }

  predicate Words(a: seq<nat>) { forall j :: 0 <= j < |a| ==> a[j] < TWO32 }

  /** Aligned, and the array does not wrap around the address space. */
  predicate Placed(base: nat, n: nat) { base % 4 == 0 && base + 4 * n <= TWO32 }

  predicate InArray(x: nat, base: nat, n: nat) { base <= x < base + 4 * n && (x - base) % 4 == 0 }

  /** Every address that is not one of the array's words. */
  ghost function Outside(base: nat, n: nat): iset<nat> { iset x: nat | !InArray(x, base, n) }

  /** The registers in use: x1 the base, x2 the last word of the pass, x5 the swapped flag, x6 the
      word being compared. */
  ghost predicate At(s: Cpu, pc: nat, base: nat, k: nat, i: nat, flag: bool, a: seq<nat>)
  {
    && s.Valid() && s.pc == pc && s.regs[1] == base && s.regs[2] == base + 4 * k
    && s.regs[6] == base + 4 * i && s.regs[5] == (if flag then 1 else 0)
    && Array(s.mem, base, a) && Words(a) && Placed(base, |a|) && k < |a|
  }

  lemma StoreArray(mem: Memory, base: nat, a: seq<nat>, i: nat, v: nat)
    requires Array(mem, base, a) && i < |a|
    ensures Array(mem[base + 4 * i := v], base, a[i := v])
    ensures Agree(mem, mem[base + 4 * i := v], Outside(base, |a|))
  {
  }

  /** Words 6 to 8: load words i and i + 1 and branch on their order. */
  lemma LoadAndCompare(code: seq<Instr>, s: Cpu, base: nat, k: nat, i: nat, flag: bool, a: seq<nat>) returns (s': Cpu)
    requires IsSorter(code) && At(s, 24, base, k, i, flag, a) && i < k
    ensures Reaches(code, s, s', EVERYWHERE)
    ensures At(s', if a[i + 1] >= a[i] then 48 else 36, base, k, i, flag, a)
    ensures s'.regs[4] == a[i] && s'.regs[3] == a[i + 1]
  {
    assert Load(s.mem, base + 4 * i) == a[i] && Load(s.mem, base + 4 * (i + 1)) == a[i + 1];
    var s1 := DoLw(code, s, 4, 6, 0, base + 4 * i);
    var s2 := DoLw(code, s1, 3, 6, 4, base + 4 * (i + 1));
    s' := DoBranch(code, s2, Bgeu(3, 4, 16), a[i + 1] >= a[i]);
    TraceReaches(code, [s, s1, s2, s'], EVERYWHERE);
  }

  /** Words 9 to 11: store them the other way round and set the flag. */
  lemma StoreSwapped(code: seq<Instr>, s: Cpu, base: nat, k: nat, i: nat, flag: bool, a: seq<nat>) returns (s': Cpu)
    requires IsSorter(code) && At(s, 36, base, k, i, flag, a) && i < k
    requires s.regs[4] == a[i] && s.regs[3] == a[i + 1]
    ensures Reaches(code, s, s', Outside(base, |a|))
    ensures At(s', 48, base, k, i, true, Swap(a, i))
  {
    var x, y := base + 4 * i, base + 4 * (i + 1);
    var s1 := DoSw(code, s, 3, 6, 0, x);
    var s2 := DoSw(code, s1, 4, 6, 4, y);
    s' := DoAddi(code, s2, 5, 0, 1);
    SwapInMemory(s.mem, base, a, i, s1.mem, s2.mem);
    SwapWords(a, i);
    TraceReaches(code, [s, s1, s2, s'], Outside(base, |a|));
  }

  lemma SwapInMemory(mem: Memory, base: nat, a: seq<nat>, i: nat, mem1: Memory, mem2: Memory)
    requires Array(mem, base, a) && i + 1 < |a|
    requires mem1 == mem[base + 4 * i := a[i + 1]] && mem2 == mem1[base + 4 * (i + 1) := a[i]]
    ensures Array(mem2, base, Swap(a, i))
    ensures Agree(mem, mem1, Outside(base, |a|)) && Agree(mem, mem2, Outside(base, |a|))
  {
    var b := a[i := a[i + 1]];
    StoreArray(mem, base, a, i, a[i + 1]);
    StoreArray(mem1, base, b, i + 1, a[i]);
    assert b[i + 1 := a[i]] == Swap(a, i);
  }

  lemma SwapWords(a: seq<nat>, i: nat)
    requires Words(a) && i + 1 < |a|
    ensures Words(Swap(a, i))
  {
  }

  /** Words 6 to 12: compare words i and i + 1, swap if out of order, move on. */
  lemma CompareAndSwap(code: seq<Instr>, s: Cpu, base: nat, k: nat, i: nat, flag: bool, a: seq<nat>) returns (s': Cpu)
    requires IsSorter(code) && At(s, 24, base, k, i, flag, a) && i < k
    ensures Reaches(code, s, s', Outside(base, |a|))
    ensures if a[i] > a[i + 1] then At(s', 52, base, k, i + 1, true, Swap(a, i))
            else At(s', 52, base, k, i + 1, flag, a)
  {
    var quiet := Outside(base, |a|);
    var mid := LoadAndCompare(code, s, base, k, i, flag, a);
    Quieter(code, s, mid, EVERYWHERE, quiet);
    if a[i] > a[i + 1] {
      var swapped := StoreSwapped(code, mid, base, k, i, flag, a);
      Then(code, s, mid, swapped, quiet);
      mid := swapped;
    }
    s' := MoveOn(code, mid, base, k, i, flag || a[i] > a[i + 1], if a[i] > a[i + 1] then Swap(a, i) else a);
    Quieter(code, mid, s', EVERYWHERE, quiet);
    Then(code, s, mid, s', quiet);
  }

  /** Word 12. */
  lemma MoveOn(code: seq<Instr>, s: Cpu, base: nat, k: nat, i: nat, flag: bool, a: seq<nat>) returns (s': Cpu)
    requires IsSorter(code) && At(s, 48, base, k, i, flag, a) && i < k
    ensures Reaches(code, s, s', EVERYWHERE) && At(s', 52, base, k, i + 1, flag, a)
  {
    s' := DoAddi(code, s, 6, 6, 4);
    assert base + 4 * i + 4 == base + 4 * (i + 1);
    OneStep(code, s, s', EVERYWHERE);
  }

  lemma PassOnward(a: seq<nat>, i: nat, k: nat, b: seq<nat>)
    requires i < k < |a| && b == if a[i] > a[i + 1] then Swap(a, i) else a
    ensures i + 1 == k ==> Pass(a, i, k) == (b, a[i] > a[i + 1])
    ensures i + 1 < k ==> Pass(a, i, k) == (Pass(b, i + 1, k).0, a[i] > a[i + 1] || Pass(b, i + 1, k).1)
  {
  }

  /** Words 6 to 13: the inner loop is one pass. */
  lemma {:induction false} InnerLoop(code: seq<Instr>, s: Cpu, base: nat, k: nat, i: nat, flag: bool, a: seq<nat>)
    returns (s': Cpu)
    requires IsSorter(code) && At(s, 24, base, k, i, flag, a) && i < k
    ensures Reaches(code, s, s', Outside(base, |a|))
    ensures At(s', 56, base, k, k, flag || Pass(a, i, k).1, Pass(a, i, k).0)
    decreases k - i
  {
    var quiet := Outside(base, |a|);
    var mid := CompareAndSwap(code, s, base, k, i, flag, a);
    s' := DoBranch(code, mid, Bne(6, 2, -28), i + 1 != k);
    OneStep(code, mid, s', quiet);
    Then(code, s, mid, s', quiet);
    var swap := a[i] > a[i + 1];
    var b := if swap then Swap(a, i) else a;
    PassOnward(a, i, k, b);
    if i + 1 < k {
      var looped := s';
      s' := InnerLoop(code, looped, base, k, i + 1, flag || swap, b);
      Then(code, s, looped, s', quiet);
    }
  }

  /** The state at word 4, about to start a pass over k + 1 words. */
  ghost predicate AtPass(s: Cpu, base: nat, k: nat, a: seq<nat>)
  {
    && s.Valid() && s.pc == 16 && s.regs[1] == base && s.regs[2] == base + 4 * k
    && Array(s.mem, base, a) && Words(a) && Placed(base, |a|) && k < |a|
  }

  /** Words 4 to 13: one pass. */
  lemma OnePass(code: seq<Instr>, s: Cpu, base: nat, k: nat, a: seq<nat>) returns (s': Cpu)
    requires IsSorter(code) && AtPass(s, base, k, a) && 0 < k
    ensures Reaches(code, s, s', Outside(base, |a|))
    ensures At(s', 56, base, k, k, Pass(a, 0, k).1, Pass(a, 0, k).0)
  {
    var quiet := Outside(base, |a|);
    var s1 := DoAdd(code, s, 6, 1, 0);
    var s2 := DoAdd(code, s1, 5, 0, 0);
    TraceReaches(code, [s, s1, s2], quiet);
    s' := InnerLoop(code, s2, base, k, 0, false, a);
    Then(code, s, s2, s', quiet);
  }

  /** Words 14 to 16: stop if nothing was swapped or one word is left, else shorten the pass. */
  lemma AfterPass(code: seq<Instr>, s: Cpu, base: nat, k: nat, flag: bool, b: seq<nat>) returns (s': Cpu)
    requires IsSorter(code) && At(s, 56, base, k, k, flag, b) && 0 < k
    ensures Reaches(code, s, s', EVERYWHERE)
    ensures if flag && k > 1 then AtPass(s', base, k - 1, b)
            else s'.Valid() && s'.pc == 68 && Array(s'.mem, base, b)
  {
    s' := DoBranch(code, s, Beq(5, 0, 12), !flag);
    if !flag {
      TraceReaches(code, [s, s'], EVERYWHERE);
    } else {
      var s1 := s';
      var s2 := DoAddi(code, s1, 2, 2, -4);
      assert s2.regs[2] == base + 4 * (k - 1);
      s' := DoBranch(code, s2, Bne(2, 1, -48), k != 1);
      TraceReaches(code, [s, s1, s2, s'], EVERYWHERE);
    }
  }

  /** Words 4 to 16: the outer loop is the sort, and it ends at the spin. */
  lemma {:induction false} OuterLoop(code: seq<Instr>, s: Cpu, base: nat, k: nat, a: seq<nat>) returns (s': Cpu)
    requires IsSorter(code) && AtPass(s, base, k, a) && 0 < k
    ensures Reaches(code, s, s', Outside(base, |a|))
    ensures s'.Valid() && s'.pc == 68 && Array(s'.mem, base, Sort(a, k))
    decreases k
  {
    var quiet := Outside(base, |a|);
    var (b, swapped) := Pass(a, 0, k);
    var bottom := OnePass(code, s, base, k, a);
    s' := AfterPass(code, bottom, base, k, swapped, b);
    Quieter(code, bottom, s', EVERYWHERE, quiet);
    Then(code, s, bottom, s', quiet);
    if swapped && k > 1 {
      var again := s';
      s' := OuterLoop(code, again, base, k - 1, b);
      Then(code, s, again, s', quiet);
    }
  }

  // ---- on a sorted array nothing is stored ----

  /** Words 6 to 13 on a sorted array. */
  lemma {:induction false} SortedScan(code: seq<Instr>, s: Cpu, base: nat, k: nat, i: nat, a: seq<nat>)
    returns (s': Cpu)
    requires IsSorter(code) && At(s, 24, base, k, i, false, a) && i < k && Sorted(a)
    ensures Reaches(code, s, s', EVERYWHERE) && At(s', 56, base, k, k, false, a)
    decreases k - i
  {
    var mid := LoadAndCompare(code, s, base, k, i, false, a);
    var moved := MoveOn(code, mid, base, k, i, false, a);
    Then(code, s, mid, moved, EVERYWHERE);
    s' := DoBranch(code, moved, Bne(6, 2, -28), i + 1 != k);
    OneStep(code, moved, s', EVERYWHERE);
    Then(code, s, moved, s', EVERYWHERE);
    if i + 1 < k {
      var again := s';
      s' := SortedScan(code, again, base, k, i + 1, a);
      Then(code, s, again, s', EVERYWHERE);
    }
  }

  /** Words 4 to 16 on a sorted array. */
  lemma SortedRun(code: seq<Instr>, s: Cpu, base: nat, a: seq<nat>) returns (s': Cpu)
    requires IsSorter(code) && |a| >= 2 && AtPass(s, base, |a| - 1, a) && Sorted(a)
    ensures Reaches(code, s, s', EVERYWHERE) && s'.Valid() && s'.pc == 68
  {
    var s1 := DoAdd(code, s, 6, 1, 0);
    var s2 := DoAdd(code, s1, 5, 0, 0);
    TraceReaches(code, [s, s1, s2], EVERYWHERE);
    var bottom := SortedScan(code, s2, base, |a| - 1, 0, a);
    Then(code, s, s2, bottom, EVERYWHERE);
    s' := AfterPass(code, bottom, base, |a| - 1, false, a);
    Then(code, s, bottom, s', EVERYWHERE);
  }

  // ---- the main results ----

  /** From word 4 on, for every array of at least two words, every base that fits and every
      contents: the program reaches its spin with the array sorted as the C routine sorts it, and
      no state on the way differs from the start anywhere else. */
  lemma MachineRefinesC(code: seq<Instr>, s: Cpu, base: nat, a: seq<nat>) returns (s': Cpu)
    requires IsSorter(code) && |a| >= 2 && AtPass(s, base, |a| - 1, a)
    ensures Reaches(code, s, s', Outside(base, |a|))
    ensures s'.Valid() && s'.pc == 68 && Array(s'.mem, base, BubbleSorted(a))
    ensures Sorted(BubbleSorted(a)) && multiset(BubbleSorted(a)) == multiset(a)
  {
    BubbleSortCorrect(a);
    s' := OuterLoop(code, s, base, |a| - 1, a);
  }

  /** Once at the spin (words 17 and 18) the program stays there and memory stays as it is. */
  lemma {:induction false} SpinForever(code: seq<Instr>, s: Cpu, n: nat)
    requires IsSorter(code) && s.Valid() && s.pc in {68, 72}
    ensures Steps(code, s, n).Next?
    ensures var s' := Steps(code, s, n).cpu; s'.Valid() && s'.pc in {68, 72} && s'.mem == s.mem
    decreases n
  {
    if n > 0 {
      SpinForever(code, Step(code, s).cpu, n - 1);
    }
  }

  /** What the patched words 0 to 3 leave in x1 and x2. */
  lemma Prefix(code: seq<Instr>, base: nat, len: nat, s: Cpu) returns (s': Cpu)
    requires base < TWO32 && 1 <= len <= 0x4000_0000 && IsPatched(code, base, len) && s.Valid() && s.pc == 0
    ensures Reaches(code, s, s', EVERYWHERE) && s'.Valid() && s'.pc == 16 && s'.mem == s.mem
    ensures s'.regs[1] == U32(base - (if base % 0x1000 < 0x800 then 0 else 0x1000))
    ensures s'.regs[2] == U32(s'.regs[1] + SignExtend((len - 1) * 4 % 0x1000, 2048))
  {
    var offset := (len - 1) * 4;
    assert U32(offset) == offset;
    var s1 := DoAdd(code, s, 0, 0, 0);
    OneStep(code, s, s1, EVERYWHERE);
    var s3 := LoadAddress(code, s1, 1, base);
    Then(code, s, s1, s3, EVERYWHERE);
    s' := DoAddi(code, s3, 2, 1, SignExtend(offset % 0x1000, 2048));
    OneStep(code, s3, s', EVERYWHERE);
    Then(code, s, s3, s', EVERYWHERE);
  }

  /** The patched prefix sets up the loop exactly when bit 11 of the base is clear and the array has
      at most 512 words: addi sign-extends its 12-bit immediate. */
  lemma PrefixRight(code: seq<Instr>, base: nat, len: nat, s: Cpu) returns (s': Cpu)
    requires base < TWO32 && 1 <= len <= 0x3FFF_FE00 && IsPatched(code, base, len) && s.Valid() && s.pc == 0
    ensures Reaches(code, s, s', EVERYWHERE) && s'.Valid() && s'.pc == 16 && s'.mem == s.mem
    ensures s'.regs[1] == base <==> base % 0x1000 < 0x800
    ensures s'.regs[2] == U32(s'.regs[1] + 4 * (len - 1)) <==> len <= 512
  {
    s' := Prefix(code, base, len, s);
    OffByPage(base);
    CutOffset(4 * (len - 1));
    SameSum(s'.regs[1], 4 * (len - 1), SignExtend((len - 1) * 4 % 0x1000, 2048));
  }

  lemma CutOffset(want: nat)
    requires want < TWO32 - 0x800
    ensures var got := SignExtend(want % 0x1000, 2048);
            (want == got || 0 < want - got < TWO32) && (want == got <==> want < 0x800)
  {
  }

  lemma SameSum(x: int, y: int, z: int)
    requires y == z || 0 < y - z < TWO32
    ensures U32(x + y) == U32(x + z) <==> y == z
  {
  }

  /** A base with bit 11 set, inside the data memory: x1 comes out a page too low. */
  lemma PrefixWrong(code: seq<Instr>, base: nat, s: Cpu) returns (s': Cpu)
    requires base == 0x1042_8800 && IsPatched(code, base, 2) && s.Valid() && s.pc == 0
    ensures Reaches(code, s, s', EVERYWHERE) && s'.Valid() && s'.pc == 16 && s'.regs[1] == 0x1042_7800
  {
    s' := Prefix(code, base, 2, s);
  }

  /** Where the program takes the array to be. */
  function LoadedBase(base: nat): (low: nat)
    ensures low < TWO32
  {
    U32(base - (if base % 0x1000 < 0x800 then 0 else 0x1000))
  }

  lemma OffsetFits(low: nat, len: nat)
    requires 1 <= len <= 512 && Placed(low, len)
    ensures U32(low + SignExtend((len - 1) * 4 % 0x1000, 2048)) == low + 4 * (len - 1)
  {
  }

  lemma PatchedSortsLoaded(code: seq<Instr>, base: nat, b: seq<nat>, s: Cpu) returns (s': Cpu)
    requires 2 <= |b| <= 512 && base < TWO32 && Placed(LoadedBase(base), |b|)
    requires IsSorter(code) && IsPatched(code, base, |b|)
    requires s.Valid() && s.pc == 0 && Array(s.mem, LoadedBase(base), b) && Words(b)
    ensures Reaches(code, s, s', Outside(LoadedBase(base), |b|))
    ensures s'.Valid() && s'.pc == 68 && Array(s'.mem, LoadedBase(base), BubbleSorted(b))
  {
    var low := LoadedBase(base);
    var start := Prefix(code, base, |b|, s);
    OffsetFits(low, |b|);
    Quieter(code, s, start, EVERYWHERE, Outside(low, |b|));
    s' := MachineRefinesC(code, start, low, b);
    Then(code, s, start, s', Outside(low, |b|));
  }

  lemma ProgramIs(code: seq<Instr>, base: nat, len: nat)
    requires len >= 1 && code == DecodeAll(Program(base, len))
    ensures IsSorter(code) && IsPatched(code, base, len)
  {
    ProgramDecodes(base, len);
    CodeIs(base, len);
  }

  /** The whole patched program, from its first word: it sorts the words at the base it loads. */
  lemma ProgramSortsLoaded(code: seq<Instr>, base: nat, b: seq<nat>, s: Cpu) returns (s': Cpu)
    requires 2 <= |b| <= 512 && base < TWO32 && Placed(LoadedBase(base), |b|) && code == DecodeAll(Program(base, |b|))
    requires s.Valid() && s.pc == 0 && Array(s.mem, LoadedBase(base), b) && Words(b)
    ensures Reaches(code, s, s', Outside(LoadedBase(base), |b|))
    ensures s'.Valid() && s'.pc == 68 && Array(s'.mem, LoadedBase(base), BubbleSorted(b))
  {
    ProgramIs(code, base, |b|);
    s' := PatchedSortsLoaded(code, base, b, s);
  }

  /** With bit 11 of the base clear that is the array. */
  lemma ProgramSorts(code: seq<Instr>, base: nat, a: seq<nat>, s: Cpu) returns (s': Cpu)
    requires 2 <= |a| <= 512 && base % 0x1000 < 0x800 && Placed(base, |a|) && code == DecodeAll(Program(base, |a|))
    requires s.Valid() && s.pc == 0 && Array(s.mem, base, a) && Words(a)
    ensures Reaches(code, s, s', Outside(base, |a|))
    ensures s'.Valid() && s'.pc == 68 && Array(s'.mem, base, BubbleSorted(a))
    ensures Sorted(BubbleSorted(a)) && multiset(BubbleSorted(a)) == multiset(a)
  {
    BubbleSortCorrect(a);
    BitClear(base, |a|);
    s' := ProgramSortsLoaded(code, base, a, s);
  }

  lemma BitClear(base: nat, n: nat)
    requires base % 0x1000 < 0x800 && Placed(base, n) && n > 0
    ensures base < TWO32 && LoadedBase(base) == base
  {
  }

  lemma LeftAlone(code: seq<Instr>, s: Cpu, s': Cpu, base: nat, a: seq<nat>, quiet: iset<nat>)
    requires Reaches(code, s, s', quiet) && Array(s.mem, base, a)
    requires forall i :: 0 <= i < |a| ==> base + 4 * i in quiet
    ensures Array(s'.mem, base, a)
  {
    var n: nat :| Path(code, s, s', quiet, n);
    assert Steps(code, s, n) == Next(s') && Agree(s.mem, Steps(code, s, n).cpu.mem, quiet);
  }

  lemma SameArray(mem: Memory, base: nat, a: seq<nat>, b: seq<nat>)
    requires Array(mem, base, a) && |a| == |b|
    ensures Array(mem, base, b) <==> a == b
  {
  }

  /** With up to 512 words the array ends up sorted exactly when bit 11 of the base is clear, or it was sorted
      already: otherwise the words a page below are sorted, and the array is left alone. */
  lemma ProgramSortsWhen(code: seq<Instr>, base: nat, a: seq<nat>, b: seq<nat>, s: Cpu) returns (s': Cpu)
    requires 2 <= |a| == |b| <= 512 && Placed(base, |a|) && Placed(LoadedBase(base), |b|)
    requires s.Valid() && s.pc == 0 && Words(a) && Words(b) && code == DecodeAll(Program(base, |b|))
    requires Array(s.mem, base, a) && Array(s.mem, LoadedBase(base), b)
    ensures Reaches(code, s, s', Outside(LoadedBase(base), |b|))
    ensures s'.pc == 68 && Array(s'.mem, LoadedBase(base), BubbleSorted(b))
    ensures base % 0x1000 >= 0x800 ==> Array(s'.mem, base, a)
    ensures Array(s'.mem, base, BubbleSorted(a)) <==> base % 0x1000 < 0x800 || Sorted(a)
  {
    assert base < TWO32;
    s' := ProgramSortsLoaded(code, base, b, s);
    if base % 0x1000 < 0x800 {
      BitClear(base, |a|);
      SameArray(s.mem, base, a, b);
    } else {
      PageBelow(code, base, a, s, s');
    }
  }

  lemma PageBelow(code: seq<Instr>, base: nat, a: seq<nat>, s: Cpu, s': Cpu)
    requires 2 <= |a| <= 512 && Placed(base, |a|) && Placed(LoadedBase(base), |a|) && base % 0x1000 >= 0x800
    requires Reaches(code, s, s', Outside(LoadedBase(base), |a|)) && Array(s.mem, base, a)
    ensures Array(s'.mem, base, a) && (Array(s'.mem, base, BubbleSorted(a)) <==> Sorted(a))
  {
    var quiet := Outside(LoadedBase(base), |a|);
    forall i | 0 <= i < |a| ensures base + 4 * i in quiet {
      PageApart(base, i, |a|);
    }
    LeftAlone(code, s, s', base, a, quiet);
    SameArray(s'.mem, base, a, BubbleSorted(a));
    SortedStays(a);
  }

  lemma PageApart(base: nat, i: nat, n: nat)
    requires base % 0x1000 >= 0x800 && i < n <= 512 && Placed(base, n) && Placed(LoadedBase(base), n)
    ensures !InArray(base + 4 * i, LoadedBase(base), n)
  {
    var low := LoadedBase(base);
    assert low == if base >= 0x1000 then base - 0x1000 else base - 0x1000 + TWO32;
  }
}
