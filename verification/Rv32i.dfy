/** The part of the RV32I base instruction set that the embedded test programs use, following
    sections 2.4 to 2.6 of the RISC-V Unprivileged ISA: decoding of instruction words, one step of
    execution, and reachability. */
module Rv32i {
  import opened Machine32
  import Bits

  datatype Instr =
    | Add(rd: nat, rs1: nat, rs2: nat)
    | Addi(rd: nat, rs1: nat, imm: int)
    | Lui(rd: nat, upper: nat)
    | Lw(rd: nat, rs1: nat, imm: int)
    | Sw(rs2: nat, rs1: nat, imm: int)
    | Beq(rs1: nat, rs2: nat, offset: int)
    | Bne(rs1: nat, rs2: nat, offset: int)
    | Bgeu(rs1: nat, rs2: nat, offset: int)
    | Illegal

  // ---- decoding ----

  function SignExtend(x: nat, sign: nat): int { if x >= sign then x - 2 * sign else x }

  function Rd(w: nat): nat { (w / 0x80) % 32 }

  function Funct3(w: nat): nat { (w / 0x1000) % 8 }

  function Rs1(w: nat): nat { (w / 0x8000) % 32 }

  function Rs2(w: nat): nat { (w / 0x10_0000) % 32 }

  function Funct7(w: nat): nat { (w / 0x200_0000) % 128 }

  /** The instruction with these fields; every format cuts the word at the same places and puts its
      immediate together from the fields it does not use. */
  function DecodeFields(opcode: nat, rd: nat, funct3: nat, rs1: nat, rs2: nat, funct7: nat): Instr
  {
    var immI := SignExtend(funct7 * 32 + rs2, 2048);
    var immS := SignExtend(funct7 * 32 + rd, 2048);
    var immB := SignExtend(funct7 / 64 * 4096 + rd % 2 * 2048 + funct7 % 64 * 32 + rd / 2 * 2, 4096);
    if opcode == 0x33 && funct3 == 0 && funct7 == 0 then Add(rd, rs1, rs2)
    else if opcode == 0x13 && funct3 == 0 then Addi(rd, rs1, immI)
    else if opcode == 0x37 then Lui(rd, funct3 + rs1 * 8 + rs2 * 256 + funct7 * 8192)
    else if opcode == 0x03 && funct3 == 2 then Lw(rd, rs1, immI)
    else if opcode == 0x23 && funct3 == 2 then Sw(rs2, rs1, immS)
    else if opcode == 0x63 && funct3 == 0 then Beq(rs1, rs2, immB)
    else if opcode == 0x63 && funct3 == 1 then Bne(rs1, rs2, immB)
    else if opcode == 0x63 && funct3 == 7 then Bgeu(rs1, rs2, immB)
    else Illegal
  }

  function Decode(w: nat): Instr
  {
    DecodeFields(w % 128, Rd(w), Funct3(w), Rs1(w), Rs2(w), Funct7(w))
  }

  /** The fields of a word put together from them. */
  lemma Assembled(w: nat, opcode: nat, rd: nat, funct3: nat, rs1: nat, rs2: nat, funct7: nat)
    requires opcode < 128 && rd < 32 && funct3 < 8 && rs1 < 32 && rs2 < 32 && funct7 < 128
    requires w == opcode + rd * 0x80 + funct3 * 0x1000 + rs1 * 0x8000 + rs2 * 0x10_0000 + funct7 * 0x200_0000
    ensures Decode(w) == DecodeFields(opcode, rd, funct3, rs1, rs2, funct7)
  {
    var low, top := opcode + rd * 0x80, rs2 + funct7 * 32;
    LowFields(w, opcode, rd, funct3 + rs1 * 8 + top * 256);
    MiddleFields(w, low, funct3, rs1, top);
    HighFields(w, low + funct3 * 0x1000 + rs1 * 0x8000, rs2, funct7);
  }

  lemma LowFields(w: nat, opcode: nat, rd: nat, rest: nat)
    requires opcode < 128 && rd < 32 && w == opcode + rd * 0x80 + rest * 0x1000
    ensures w % 128 == opcode && Rd(w) == rd
  {
    SplitOff(w, 0x80, rd + rest * 32, opcode);
    SplitOff(rd + rest * 32, 32, rest, rd);
  }

  lemma MiddleFields(w: nat, low: nat, funct3: nat, rs1: nat, top: nat)
    requires low < 0x1000 && funct3 < 8 && rs1 < 32
    requires w == low + funct3 * 0x1000 + rs1 * 0x8000 + top * 0x10_0000
    ensures Funct3(w) == funct3 && Rs1(w) == rs1
  {
    var middle := rs1 + top * 32;
    SplitOff(w, 0x1000, funct3 + middle * 8, low);
    SplitOff(funct3 + middle * 8, 8, middle, funct3);
    SplitOff(w, 0x8000, middle, low + funct3 * 0x1000);
    SplitOff(middle, 32, top, rs1);
  }

  lemma HighFields(w: nat, low: nat, rs2: nat, funct7: nat)
    requires low < 0x10_0000 && rs2 < 32 && funct7 < 128
    requires w == low + rs2 * 0x10_0000 + funct7 * 0x200_0000
    ensures Rs2(w) == rs2 && Funct7(w) == funct7
  {
    SplitOff(w, 0x10_0000, rs2 + funct7 * 32, low);
    SplitOff(rs2 + funct7 * 32, 32, funct7, rs2);
    SplitOff(w, 0x200_0000, funct7, low + rs2 * 0x10_0000);
  }

  lemma SplitOff(w: nat, m: nat, high: nat, low: nat)
    requires low < m && w == high * m + low
    ensures w / m == high && w % m == low
  {
    Bits.DivModUnique(w, m, high, low);
  }

  function DecodeAll(words: seq<nat>): (code: seq<Instr>)
    ensures |code| == |words|
    ensures forall i :: 0 <= i < |words| ==> code[i] == Decode(words[i])
  {
    seq(|words|, i requires 0 <= i < |words| => Decode(words[i]))
  }

  lemma DecodeAppend(a: seq<nat>, b: seq<nat>)
    ensures DecodeAll(a + b) == DecodeAll(a) + DecodeAll(b)
  {
  }

  lemma Glue(a: seq<nat>, b: seq<nat>, c: seq<nat>, d: seq<nat>)
    ensures DecodeAll(a + b + c + d) == DecodeAll(a) + DecodeAll(b) + DecodeAll(c) + DecodeAll(d)
  {
    DecodeAppend(a, b);
    DecodeAppend(a + b, c);
    DecodeAppend(a + b + c, d);
  }

  // ---- execution ----

  /** Data memory holds 32-bit words at multiples of four; words never written read as 0. */
  type Memory = map<nat, nat>

  function Load(mem: Memory, address: nat): nat { if address in mem then mem[address] else 0 }

  /** Instruction memory is separate; `pc` is relative to the start of the program. */
  datatype Cpu = Cpu(pc: nat, regs: seq<nat>, mem: Memory)
  {
    predicate Valid() { |regs| == 32 && regs[0] == 0 }

    /** A register write; x0 stays 0. */
    function Set(rd: nat, value: int): Cpu
      requires Valid() && rd < 32
    {
      this.(pc := pc + 4, regs := if rd == 0 then regs else regs[rd := U32(value)])
    }

    function Branch(taken: bool, offset: int): Cpu
    {
      this.(pc := U32(if taken then pc + offset else pc + 4))
    }
  }

  datatype Outcome = Trap | Next(cpu: Cpu)

  function Execute(i: Instr, s: Cpu): Outcome
    requires s.Valid()
  {
    match i
    case Add(rd, rs1, rs2) =>
      if rd < 32 && rs1 < 32 && rs2 < 32 then Next(s.Set(rd, s.regs[rs1] + s.regs[rs2])) else Trap
    case Addi(rd, rs1, imm) =>
      if rd < 32 && rs1 < 32 then Next(s.Set(rd, s.regs[rs1] + imm)) else Trap
    case Lui(rd, upper) =>
      if rd < 32 then Next(s.Set(rd, upper * 4096)) else Trap
    case Lw(rd, rs1, imm) =>
      if rd < 32 && rs1 < 32 && U32(s.regs[rs1] + imm) % 4 == 0
      then Next(s.Set(rd, Load(s.mem, U32(s.regs[rs1] + imm)))) else Trap
    case Sw(rs2, rs1, imm) =>
      if rs1 < 32 && rs2 < 32 && U32(s.regs[rs1] + imm) % 4 == 0
      then Next(s.(pc := s.pc + 4, mem := s.mem[U32(s.regs[rs1] + imm) := s.regs[rs2]])) else Trap
    case Beq(rs1, rs2, offset) =>
      if rs1 < 32 && rs2 < 32 then Next(s.Branch(s.regs[rs1] == s.regs[rs2], offset)) else Trap
    case Bne(rs1, rs2, offset) =>
      if rs1 < 32 && rs2 < 32 then Next(s.Branch(s.regs[rs1] != s.regs[rs2], offset)) else Trap
    case Bgeu(rs1, rs2, offset) =>
      if rs1 < 32 && rs2 < 32 then Next(s.Branch(s.regs[rs1] >= s.regs[rs2], offset)) else Trap
    case Illegal => Trap
  }

  function Step(code: seq<Instr>, s: Cpu): Outcome
  {
    if s.Valid() && s.pc % 4 == 0 && s.pc / 4 < |code| then Execute(code[s.pc / 4], s) else Trap
  }

  function Steps(code: seq<Instr>, s: Cpu, n: nat): Outcome
    decreases n
  {
    if n == 0 then Next(s)
    else
      match Step(code, s)
      case Trap => Trap
      case Next(s') => Steps(code, s', n - 1)
  }

  // ---- reachability ----

  /** The two memories agree on these addresses. */
  ghost predicate Agree(m: Memory, m': Memory, quiet: iset<nat>)
  {
    forall a :: a in quiet ==> Load(m, a) == Load(m', a)
  }

  /** n steps lead from s to s' without a trap, and no state on the way differs from s at `quiet`. */
  ghost predicate Path(code: seq<Instr>, s: Cpu, s': Cpu, quiet: iset<nat>, n: nat)
  {
    && Steps(code, s, n) == Next(s')
    && forall k :: 0 <= k <= n ==> Steps(code, s, k).Next? && Agree(s.mem, Steps(code, s, k).cpu.mem, quiet)
  }

  ghost predicate Reaches(code: seq<Instr>, s: Cpu, s': Cpu, quiet: iset<nat>)
  {
    exists n: nat :: Path(code, s, s', quiet, n)
  }

  ghost const EVERYWHERE: iset<nat> := iset x: nat | true

  lemma Quieter(code: seq<Instr>, s: Cpu, s': Cpu, quiet: iset<nat>, fewer: iset<nat>)
    requires Reaches(code, s, s', quiet) && fewer <= quiet
    ensures Reaches(code, s, s', fewer)
  {
    var n: nat :| Path(code, s, s', quiet, n);
    assert Path(code, s, s', fewer, n);
  }

  lemma Stay(code: seq<Instr>, s: Cpu, quiet: iset<nat>)
    ensures Reaches(code, s, s, quiet)
  {
    assert Path(code, s, s, quiet, 0);
  }

  lemma OneStep(code: seq<Instr>, s: Cpu, s': Cpu, quiet: iset<nat>)
    requires Step(code, s) == Next(s') && Agree(s.mem, s'.mem, quiet)
    ensures Reaches(code, s, s', quiet)
  {
    assert Steps(code, s, 1) == Next(s');
    assert Path(code, s, s', quiet, 1);
  }

  lemma {:induction false} StepsAdd(code: seq<Instr>, s: Cpu, mid: Cpu, n: nat, m: nat)
    requires Steps(code, s, n) == Next(mid)
    ensures Steps(code, s, n + m) == Steps(code, mid, m)
    decreases n
  {
    if n > 0 {
      StepsAdd(code, Step(code, s).cpu, mid, n - 1, m);
    }
  }

  lemma Then(code: seq<Instr>, s: Cpu, mid: Cpu, s': Cpu, quiet: iset<nat>)
    requires Reaches(code, s, mid, quiet) && Reaches(code, mid, s', quiet)
    ensures Reaches(code, s, s', quiet)
  {
    var n: nat :| Path(code, s, mid, quiet, n);
    var m: nat :| Path(code, mid, s', quiet, m);
    StepsAdd(code, s, mid, n, m);
    assert Agree(s.mem, mid.mem, quiet);
    forall k | 0 <= k <= n + m
      ensures Steps(code, s, k).Next? && Agree(s.mem, Steps(code, s, k).cpu.mem, quiet)
    {
      if k > n {
        StepsAdd(code, s, mid, n, k - n);
        assert Agree(mid.mem, Steps(code, mid, k - n).cpu.mem, quiet);
      }
    }
    assert Path(code, s, s', quiet, n + m);
  }

  // ---- one instruction at a time ----

  /** The instruction at the program counter. */
  predicate Fetches(code: seq<Instr>, s: Cpu, i: Instr)
  {
    s.Valid() && s.pc % 4 == 0 && s.pc / 4 < |code| && code[s.pc / 4] == i
  }

  lemma DoAdd(code: seq<Instr>, s: Cpu, rd: nat, rs1: nat, rs2: nat) returns (s': Cpu)
    requires Fetches(code, s, Add(rd, rs1, rs2)) && rd < 32 && rs1 < 32 && rs2 < 32
    ensures Step(code, s) == Next(s') && s'.Valid() && s'.pc == s.pc + 4 && s'.mem == s.mem
    ensures s'.regs == if rd == 0 then s.regs else s.regs[rd := U32(s.regs[rs1] + s.regs[rs2])]
  {
    s' := s.Set(rd, s.regs[rs1] + s.regs[rs2]);
  }

  lemma DoAddi(code: seq<Instr>, s: Cpu, rd: nat, rs1: nat, imm: int) returns (s': Cpu)
    requires Fetches(code, s, Addi(rd, rs1, imm)) && 0 < rd < 32 && rs1 < 32
    ensures Step(code, s) == Next(s') && s'.Valid() && s'.pc == s.pc + 4 && s'.mem == s.mem
    ensures s'.regs == s.regs[rd := U32(s.regs[rs1] + imm)]
  {
    s' := s.Set(rd, s.regs[rs1] + imm);
  }

  lemma DoLui(code: seq<Instr>, s: Cpu, rd: nat, upper: nat) returns (s': Cpu)
    requires Fetches(code, s, Lui(rd, upper)) && 0 < rd < 32
    ensures Step(code, s) == Next(s') && s'.Valid() && s'.pc == s.pc + 4 && s'.mem == s.mem
    ensures s'.regs == s.regs[rd := U32(upper * 4096)]
  {
    s' := s.Set(rd, upper * 4096);
  }

  lemma DoLw(code: seq<Instr>, s: Cpu, rd: nat, rs1: nat, imm: int, address: nat) returns (s': Cpu)
    requires Fetches(code, s, Lw(rd, rs1, imm)) && 0 < rd < 32 && rs1 < 32
    requires address == U32(s.regs[rs1] + imm) && address % 4 == 0 && IsU32(Load(s.mem, address))
    ensures Step(code, s) == Next(s') && s'.Valid() && s'.pc == s.pc + 4 && s'.mem == s.mem
    ensures s'.regs == s.regs[rd := Load(s.mem, address)]
  {
    s' := s.Set(rd, Load(s.mem, address));
  }

  lemma DoSw(code: seq<Instr>, s: Cpu, rs2: nat, rs1: nat, imm: int, address: nat) returns (s': Cpu)
    requires Fetches(code, s, Sw(rs2, rs1, imm)) && rs2 < 32 && rs1 < 32
    requires address == U32(s.regs[rs1] + imm) && address % 4 == 0
    ensures Step(code, s) == Next(s') && s'.Valid() && s'.pc == s.pc + 4 && s'.regs == s.regs
    ensures s'.mem == s.mem[address := s.regs[rs2]]
  {
    s' := s.(pc := s.pc + 4, mem := s.mem[address := s.regs[rs2]]);
  }

  /** A conditional branch of any of the three kinds. */
  lemma DoBranch(code: seq<Instr>, s: Cpu, i: Instr, taken: bool) returns (s': Cpu)
    requires Fetches(code, s, i) && (i.Beq? || i.Bne? || i.Bgeu?) && i.rs1 < 32 && i.rs2 < 32
    requires taken == if i.Beq? then s.regs[i.rs1] == s.regs[i.rs2]
                      else if i.Bne? then s.regs[i.rs1] != s.regs[i.rs2]
                      else s.regs[i.rs1] >= s.regs[i.rs2]
    requires 0 <= s.pc + i.offset < TWO32 && s.pc + 4 < TWO32
    ensures Step(code, s) == Next(s') && s'.Valid() && s'.mem == s.mem && s'.regs == s.regs
    ensures s'.pc == if taken then s.pc + i.offset else s.pc + 4
  {
    s' := s.Branch(taken, i.offset);
  }

  /** States that follow one another. */
  ghost predicate Trace(code: seq<Instr>, states: seq<Cpu>, quiet: iset<nat>)
  {
    && states != []
    && forall k :: 0 <= k < |states| - 1 ==>
         Step(code, states[k]) == Next(states[k + 1]) && Agree(states[k].mem, states[k + 1].mem, quiet)
  }

  lemma {:induction false} TraceReaches(code: seq<Instr>, states: seq<Cpu>, quiet: iset<nat>)
    requires Trace(code, states, quiet)
    ensures Reaches(code, states[0], states[|states| - 1], quiet)
    decreases |states|
  {
    if |states| == 1 {
      Stay(code, states[0], quiet);
    } else {
      var rest := states[1..];
      forall k | 0 <= k < |rest| - 1
        ensures Step(code, rest[k]) == Next(rest[k + 1]) && Agree(rest[k].mem, rest[k + 1].mem, quiet)
      {
        var j := k + 1;
        assert rest[k] == states[j] && rest[k + 1] == states[j + 1];
      }
      TraceReaches(code, rest, quiet);
      OneStep(code, states[0], states[1], quiet);
      Then(code, states[0], states[1], states[|states| - 1], quiet);
    }
  }
}
