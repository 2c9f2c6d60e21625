/** Two machines on one memory: the host's accesses, each at a moment of its own while a program runs. */
module HostAccess {
  import opened Rv32i

  // ---- the memory over time ----

  /** What each address holds after so many steps. */
  type History = (nat, nat) -> nat

  function HistoryOf(code: seq<Instr>, s: Cpu): History
  {
    (t: nat, x: nat) => var r := Steps(code, s, t); if r.Next? then Load(r.cpu.mem, x) else 0
  }

  lemma AtOneMoment(code: seq<Instr>, s: Cpu, t: nat, mem: Memory, seen: History)
    requires Steps(code, s, t).Next? && Steps(code, s, t).cpu.mem == mem && seen == HistoryOf(code, s)
    ensures forall x: nat :: seen(t, x) == Load(mem, x)
  {
  }

  lemma QuietUntil(code: seq<Instr>, s: Cpu, s': Cpu, quiet: iset<nat>, n: nat, seen: History)
    requires Path(code, s, s', quiet, n) && seen == HistoryOf(code, s)
    ensures forall t: nat, x: nat :: t <= n && x in quiet ==> seen(t, x) == Load(s.mem, x)
  {
    forall t: nat, x: nat | t <= n && x in quiet ensures seen(t, x) == Load(s.mem, x) {
      assert Agree(s.mem, Steps(code, s, t).cpu.mem, quiet);
      AtOneMoment(code, s, t, Steps(code, s, t).cpu.mem, seen);
    }
  }

  lemma Later(code: seq<Instr>, s: Cpu, mid: Cpu, n: nat, m: nat, mem: Memory, t: nat, seen: History)
    requires Steps(code, s, n) == Next(mid) && Steps(code, mid, m).Next? && Steps(code, mid, m).cpu.mem == mem
    requires t == n + m && seen == HistoryOf(code, s)
    ensures forall x: nat :: seen(t, x) == Load(mem, x)
  {
    StepsAdd(code, s, mid, n, m);
    AtOneMoment(code, s, t, mem, seen);
  }

  // ---- the host's accesses ----

  /** What the host's i-th access finds at an address. The accesses are in order, and do not stop at some step. */
  ghost predicate Interleaved(read: History, seen: History, when: nat -> nat)
  {
    && (forall i: nat, x: nat :: read(i, x) == seen(when(i), x))
    && (forall i: nat, j: nat :: i <= j ==> when(i) <= when(j))
    && forall t: nat :: GetsTo(when, t)
  }

  ghost predicate GetsTo(when: nat -> nat, t: nat) { exists i: nat :: when(i) >= t }

  function ReadAt(seen: History, when: nat -> nat): History { (i: nat, x: nat) => seen(when(i), x) }
}
