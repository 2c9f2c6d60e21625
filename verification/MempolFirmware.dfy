/** The firmware's polling iteration and the harts' trap handler as the programs they are, updating
    arrays in place. Each is one particular schedule of the transition system: the one in which
    nothing else happens in between. */
module MempolFirmware {
  import opened Options
  import opened Machine32
  import opened PauseProtocol
  import Regulator
  import MempolLog

  // ---- one core's slot, driven to its end ----

  function Rank(phase: Phase): nat
  {
    match phase
    case Charging => 6
    case Checking => 5
    case Deciding => 4
    case WritingCommand(_) => 3
    case WritingFlag(_) => 2
    case Counting(_) => 1
    case Leaving => 0
  }

  /** The firmware's accesses for the current core, back to back, until it is ready to leave it. */
  function Drive(fw: Firmware, word: bv32): (r: (Firmware, bv32))
    requires fw.Shape() && !fw.phase.Charging?
    ensures r.0.Shape() && r.0.phase.Leaving? && r.0.idx == fw.idx
    decreases Rank(fw.phase)
  {
    if fw.phase.Leaving? then (fw, word)
    else
      var (fw', out) := FirmwareStep(fw, word);
      Drive(fw', if out == [] then word else out[0])
  }

  /** What a slot amounts to once the bucket is charged. */
  function Policed(fw: Firmware, word: bv32): (Firmware, bv32)
    requires fw.Shape()
  {
    var c := fw.idx;
    var verdict := Verdict(fw.tokens[c], fw.throttled[c]);
    if !Acked(word) || verdict == [] then (fw.(phase := Leaving), word)
    else
      var cmd := verdict[0];
      (fw.(phase := Leaving,
           issued := fw.issued[c := fw.issued[c] + [cmd]],
           throttled := fw.throttled[c := if cmd == CMD_PAUSE then 1 else 0],
           irqSent := fw.irqSent[c := U32(fw.irqSent[c] + 1)],
           decision := if c != 0 then fw.decision else if cmd == CMD_PAUSE then 1 else 2),
       cmd)
  }

  lemma DrivePolices(fw: Firmware, word: bv32)
    requires fw.Shape() && fw.phase.Checking?
    ensures Drive(fw, word) == Policed(fw, word)
  {
    var verdict := Verdict(fw.tokens[fw.idx], fw.throttled[fw.idx]);
    var decided := fw.(phase := Deciding);
    if Acked(word) {
      assert Drive(fw, word) == Drive(decided, word);
      if verdict == [] {
        var left := fw.(phase := Leaving);
        assert Drive(decided, word) == Drive(left, word) == (left, word);
      } else {
        var cmd := verdict[0];
        var writing := decided.(phase := WritingCommand(cmd));
        assert Drive(decided, word) == Drive(writing, word);
        var wrote := FirmwareStep(writing, word).0;
        var flagged := FirmwareStep(wrote, cmd).0;
        assert Drive(writing, word) == Drive(wrote, cmd) == Drive(flagged, cmd);
        assert Drive(flagged, cmd) == (FirmwareStep(flagged, cmd).0, cmd);
      }
    }
  }

  /** The mask tests one bit. */
  lemma OneBit(word: bv32)
    ensures Acked(word) <==> word & 0x0010_0000 != 0
  {
  }

  /** The slots of the current core and all later ones, and the end of the iteration. */
  function PollFrom(q: Regulator.Params, fw: Firmware, words: seq<bv32>, samples: seq<Regulator.Sample>)
    : (r: (Firmware, seq<bv32>))
    requires fw.Shape() && fw.phase.Charging? && |words| == |samples| == NUM_CORES
    ensures r.0.Shape() && r.0.phase.Charging? && r.0.idx == 0 && |r.1| == NUM_CORES
    decreases NUM_CORES - fw.idx
  {
    var c := fw.idx;
    var (fw', word') := Drive(Charge(q, fw, samples[c]), words[c]);
    var words' := words[c := word'];
    var next := FirmwareStep(fw', word').0;
    if c + 1 < NUM_CORES then PollFrom(q, next, words', samples) else (next, words')
  }

  lemma {:induction false} RunAppend<S>(app: App<S>, q: Regulator.Params, s: State<S>,
                                        first: seq<Event>, second: seq<Event>, mid: State<S>)
    requires Run(app, q, s, first) == Some(mid)
    ensures Run(app, q, s, first + second) == Run(app, q, mid, second)
    decreases |first|
  {
    if first == [] {
      assert first + second == second;
    } else {
      var e, rest := first[0], first[1..];
      assert first == [e] + rest && first + second == [e] + (rest + second);
      RunUnfold(app, q, s, e, rest);
      RunUnfold(app, q, s, e, rest + second);
      RunAppend(app, q, Next(app, q, s, e), rest, second, mid);
    }
  }

  /** One slot of an iteration, and what is left of the iteration after it. */
  lemma PollUnfold(q: Regulator.Params, fw: Firmware, words: seq<bv32>, samples: seq<Regulator.Sample>,
                   word: bv32, fw': Firmware)
    requires fw.Shape() && fw.phase.Charging? && |words| == |samples| == NUM_CORES
    requires (fw', word) == Drive(Charge(q, fw, samples[fw.idx]), words[fw.idx])
    ensures PollFrom(q, fw, words, samples)
            == if fw.idx + 1 < NUM_CORES then
                 PollFrom(q, fw'.(idx := fw.idx + 1, phase := Charging), words[fw.idx := word], samples)
               else
                 (fw'.(idx := 0, phase := Charging, decision := 0, decisions := fw'.decisions + [fw'.decision]),
                  words[fw.idx := word])
  {
  }

  /** Driving a slot is a run of the transition system. */
  lemma {:induction false} DriveIsRun<S>(app: App<S>, q: Regulator.Params, s: State<S>) returns (events: seq<Event>)
    requires s.Shape() && !s.fw.phase.Charging?
    ensures var (fw', word') := Drive(s.fw, s.words[s.fw.idx]);
            Run(app, q, s, events) == Some(s.(fw := fw', words := s.words[s.fw.idx := word']))
    decreases Rank(s.fw.phase)
  {
    if s.fw.phase.Leaving? {
      events := [];
      assert s.words[s.fw.idx := s.words[s.fw.idx]] == s.words;
    } else {
      var s' := Next(app, q, s, FwAccess);
      var word' := Drive(s'.fw, s'.words[s'.fw.idx]).1;
      assert s'.words[s.fw.idx := word'] == s.words[s.fw.idx := word'];
      var rest := DriveIsRun(app, q, s');
      events := [FwAccess] + rest;
      assert events[1..] == rest;
    }
  }

  /** A whole polling iteration is a run of the transition system, so every theorem about runs
      holds of the program below. */
  lemma {:induction false} PollIsRun<S>(app: App<S>, q: Regulator.Params, s: State<S>, samples: seq<Regulator.Sample>)
    returns (events: seq<Event>)
    requires s.Shape() && s.fw.phase.Charging? && |samples| == NUM_CORES
    ensures var (fw', words') := PollFrom(q, s.fw, s.words, samples);
            Run(app, q, s, events) == Some(s.(fw := fw', words := words'))
    decreases NUM_CORES - s.fw.idx
  {
    var c := s.fw.idx;
    var charged := Next(app, q, s, FwCharge(samples[c]));
    var slot := DriveIsRun(app, q, charged);
    var driven := Run(app, q, charged, slot).value;
    var left := Next(app, q, driven, FwAccess);
    assert left.words == driven.words;
    var rest := [];
    if c + 1 < NUM_CORES {
      rest := PollIsRun(app, q, left, samples);
    }
    assert ([FwAccess] + rest)[1..] == rest;
    RunAppend(app, q, charged, slot, [FwAccess] + rest, driven);
    events := [FwCharge(samples[c])] + (slot + ([FwAccess] + rest));
    assert events[1..] == slot + ([FwAccess] + rest);
  }

  // ---- the firmware program ----

  class Pmu {
    const q: Regulator.Params
    const words: array<bv32>      // counters 0-3, shared with the harts
    const throttled: array<nat>   // counters 28-31
    const token: array<int>
    const irqSent: array<nat>
    const dspm: array<nat>
    var logCount: nat
    ghost var issued: seq<seq<bv32>>
    ghost var decisions: seq<nat>
    ghost var logged: seq<MempolLog.Record>

    ghost predicate Valid()
      reads this, dspm
    {
      && words.Length == throttled.Length == token.Length == irqSent.Length == |issued| == NUM_CORES
      && throttled != irqSent && throttled != dspm && irqSent != dspm
      && words as object !in {throttled as object, token as object, irqSent as object, dspm as object}
      && token as object !in {throttled as object, irqSent as object, dspm as object}
      && MempolLog.Holds(dspm[..], MempolLog.Kept(logged)) && logCount == |MempolLog.Kept(logged)|
    }

    /** The firmware as the transition system sees it, about to work on core idx. */
    ghost function View(idx: nat, phase: Phase, decision: nat): Firmware
      reads this, token, throttled, irqSent
    {
      Firmware(idx, phase, token[..], throttled[..], irqSent[..], decision, issued, decisions)
    }

    constructor (q: Regulator.Params, dspm: array<nat>)
      requires dspm.Length == MempolLog.DSPM_WORDS
      modifies dspm
      ensures Valid() && this.q == q && this.dspm == dspm && logged == []
      ensures fresh(this.words) && fresh(throttled) && fresh(token) && fresh(irqSent)
      ensures words[..] == [0x0010_0000, 0x0010_0000, 0x0010_0000, 0x0010_0000]
      ensures View(0, Charging, 0)
              == Firmware(0, Charging, [0, 0, 0, 0], [0, 0, 0, 0], [0, 0, 0, 0], 0, [[], [], [], []], [])
    {
      this.q := q;
      this.dspm := dspm;
      words := new bv32[NUM_CORES](_ => CVA_ACK_MASK);
      throttled := new nat[NUM_CORES](_ => 0);
      token := new int[NUM_CORES](_ => 0);
      irqSent := new nat[NUM_CORES](_ => 0);
      logCount := 0;
      issued, decisions, logged := [[], [], [], []], [], [];
      new;
      dspm[MempolLog.LOG_BASE] := 0;
    }

    /** Charge one core's bucket for what its counters read. */
    method ChargeCore(idx: nat, sample: Regulator.Sample)
      requires Valid() && idx < NUM_CORES
      modifies token
      ensures token[..] == old(token[..])[idx := Regulator.Update32(q, old(token[idx]), sample)]
    {
      token[idx] := Regulator.Charge32(q, token[idx], sample);
      var cap := Regulator.Cap32(q);
      if token[idx] > cap {
        token[idx] := cap;
      }
    }

    /** Send one command: the word first, then the flag, then the count. */
    method Send(idx: nat, cmd: bv32, flag: nat)
      requires Valid() && idx < NUM_CORES
      modifies this`issued, words, throttled, irqSent
      ensures Valid()
      ensures words[..] == old(words[..])[idx := cmd] && throttled[..] == old(throttled[..])[idx := flag]
      ensures irqSent[..] == old(irqSent[..])[idx := U32(old(irqSent[idx]) + 1)]
      ensures issued == old(issued)[idx := old(issued)[idx] + [cmd]]
    {
      words[idx] := cmd;
      issued := issued[idx := issued[idx] + [cmd]];
      throttled[idx] := flag;
      irqSent[idx] := U32(irqSent[idx] + 1);
    }

    /** If the core has acknowledged, send it what its bucket calls for. */
    method Regulate(idx: nat, decision: nat) returns (decision': nat)
      requires Valid() && idx < NUM_CORES
      modifies this`issued, words, throttled, irqSent
      ensures Valid()
      ensures (View(idx, Leaving, decision'), words[idx])
              == Policed(old(View(idx, Checking, decision)), old(words[idx]))
      ensures words[..] == old(words[..])[idx := words[idx]]
      ensures var acked, t, flag := old(words[idx]) & 0x0010_0000 != 0, token[idx], old(throttled[idx]);
        if acked && t < 0 && flag == 0 then words[idx] == 0x4000_0000 && throttled[idx] == 1
        else if acked && t >= 0 && flag != 0 then words[idx] == 0x4100_0000 && throttled[idx] == 0
        else words[idx] == old(words[idx]) && throttled[idx] == flag
    {
      OneBit(words[idx]);
      decision' := decision;
      if words[idx] & CVA_ACK_MASK == CVA_ACK_MASK {
        if token[idx] < 0 && throttled[idx] == 0 {
          Send(idx, CMD_PAUSE, 1);
          if idx == 0 {
            decision' := 1;
          }
        } else if token[idx] >= 0 && throttled[idx] != 0 {
          Send(idx, CMD_RESUME, 0);
          if idx == 0 {
            decision' := 2;
          }
        }
      }
    }

    /** Police one core: charge its bucket and, if it has acknowledged, send what is due. */
    method PoliceCore(idx: nat, sample: Regulator.Sample, decision: nat) returns (decision': nat)
      requires Valid() && idx < NUM_CORES
      modifies this`issued, words, throttled, token, irqSent
      ensures Valid()
      ensures (View(idx, Leaving, decision'), words[idx])
              == Drive(Charge(q, old(View(idx, Charging, decision)), sample), old(words[idx]))
      ensures words[..] == old(words[..])[idx := words[idx]]
    {
      ghost var charged := Charge(q, View(idx, Charging, decision), sample);
      ChargeCore(idx, sample);
      assert View(idx, Checking, decision) == charged;
      DrivePolices(charged, words[idx]);
      decision' := Regulate(idx, decision);
    }

    /** Every core in turn. */
    method PoliceAll(samples: seq<Regulator.Sample>) returns (decision: nat)
      requires Valid() && |samples| == NUM_CORES
      modifies this`issued, words, throttled, token, irqSent
      ensures Valid()
      ensures (View(0, Charging, 0).(decisions := decisions + [decision]), words[..])
              == PollFrom(q, old(View(0, Charging, 0)), old(words[..]), samples)
    {
      ghost var (before, words0) := (View(0, Charging, 0), words[..]);
      decision := 0;
      for idx := 0 to NUM_CORES
        invariant Valid() && decisions == old(decisions)
        invariant idx < NUM_CORES ==>
          PollFrom(q, before, words0, samples) == PollFrom(q, View(idx, Charging, decision), words[..], samples)
        invariant idx == NUM_CORES ==>
          PollFrom(q, before, words0, samples)
          == (View(0, Charging, 0).(decisions := decisions + [decision]), words[..])
      {
        ghost var (fw, words') := (View(idx, Charging, decision), words[..]);
        decision := PoliceCore(idx, samples[idx], decision);
        PollUnfold(q, fw, words', samples, words[idx], View(idx, Leaving, decision));
      }
    }

    /** One polling iteration: police the cores, then write the log record for core 0. */
    method PollIteration(samples: seq<Regulator.Sample>)
      requires Valid() && |samples| == NUM_CORES
      modifies this`issued, this`decisions, this`logged, this`logCount, words, throttled, token, irqSent, dspm
      ensures Valid()
      ensures (View(0, Charging, 0), words[..]) == PollFrom(q, old(View(0, Charging, 0)), old(words[..]), samples)
      ensures |decisions| == |old(decisions)| + 1
      ensures var x, decision := samples[0], decisions[|old(decisions)|];
        logged == old(logged)
          + [MempolLog.Packed(MempolLog.Report(x.llcRd, x.llcWr, x.memRd, x.memWr, decision, token[0]))]
    {
      var decision := PoliceAll(samples);
      decisions := decisions + [decision];
      var x := samples[0];
      LogRecord(MempolLog.Packed(MempolLog.Report(x.llcRd, x.llcWr, x.memRd, x.memWr, decision, token[0])));
    }

    /** Append one record to the log, if there is room. */
    method LogRecord(record: MempolLog.Record)
      requires Valid()
      modifies this`logged, this`logCount, dspm
      ensures Valid() && logged == old(logged) + [record]
    {
      logCount := MempolLog.Append(dspm, logCount, record, logged);
      logged := logged + [record];
    }
  }

  // ---- the trap handler ----

  /** The handler's steps, back to back, from reading the command word until it returns. */
  function DriveHandler<S>(app: App<S>, h: Hart<S>, word: bv32): (r: (Hart<S>, bv32))
    requires h.stage != Running && h.stage != Entered
    ensures r.0.stage == Returning
    decreases HandlerRank(h.stage)
  {
    if h.stage == Returning then (h, word)
    else
      var (h', out) := HandlerStep(app, h, word);
      DriveHandler(app, h', if out == [] then word else out[0])
  }

  function HandlerRank(stage: Stage): nat
  {
    match stage
    case Running => 6
    case Entered => 6
    case Claimed => 5
    case GotWord => 4
    case PauseSaved => 3
    case PauseRedirected => 2
    case PauseFlagged => 1
    case ResumeRestored => 2
    case ResumeFlagged => 1
    case Returning => 0
  }

  /** Driving the handler is a run of the transition system too. */
  lemma {:induction false} HandlerIsRun<S>(app: App<S>, q: Regulator.Params, s: State<S>, c: nat)
    returns (events: seq<Event>)
    requires s.Shape() && c < NUM_CORES && s.harts[c].stage != Running && s.harts[c].stage != Entered
    ensures var (h', word') := DriveHandler(app, s.harts[c], s.words[c]);
            Run(app, q, s, events) == Some(s.(harts := s.harts[c := h'], words := s.words[c := word']))
    decreases HandlerRank(s.harts[c].stage)
  {
    if s.harts[c].stage == Returning {
      events := [];
      assert s.words[c := s.words[c]] == s.words && s.harts[c := s.harts[c]] == s.harts;
    } else {
      var s' := Next(app, q, s, HandlerAccess(c));
      var (h', word') := DriveHandler(app, s'.harts[c], s'.words[c]);
      assert s'.words[c := word'] == s.words[c := word'] && s'.harts[c := h'] == s.harts[c := h'];
      var rest := HandlerIsRun(app, q, s', c);
      events := [HandlerAccess(c)] + rest;
      assert events[1..] == rest;
    }
  }

  /** What a claimed PMU interrupt amounts to. */
  function Handled<S>(app: App<S>, h: Hart<S>, word: bv32): (Hart<S>, bv32)
  {
    var h1 := h.(counterVal := word, stage := Returning);
    if IsPause(word) then
      (h1.(savedMepc := h.mepcRead, pausePcs := h.pausePcs + [h.mepcRead], mepc := app.wfi, paused := 1,
           acted := h.acted + [word]), CVA_ACK_MASK)
    else if IsResume(word) then
      (h1.(mepc := h.savedMepc, resumePcs := h.resumePcs + [h.savedMepc], paused := 0,
           acted := h.acted + [word]), CVA_ACK_MASK)
    else (h1, word)
  }

  lemma DriveHandles<S>(app: App<S>, h: Hart<S>, word: bv32)
    requires h.stage == Claimed
    ensures DriveHandler(app, h, word) == Handled(app, h, word)
  {
    var got := HandlerStep(app, h, word).0;
    var one := HandlerStep(app, got, word).0;
    assert DriveHandler(app, h, word) == DriveHandler(app, one, word);
    if one.stage == PauseSaved {
      var two := HandlerStep(app, one, word).0;
      var three := HandlerStep(app, two, word).0;
      assert DriveHandler(app, one, word) == DriveHandler(app, two, word) == DriveHandler(app, three, word);
      assert DriveHandler(app, three, word) == (HandlerStep(app, three, word).0, CVA_ACK_MASK);
    } else if one.stage == ResumeRestored {
      var two := HandlerStep(app, one, word).0;
      assert DriveHandler(app, one, word) == DriveHandler(app, two, word);
      assert DriveHandler(app, two, word) == (HandlerStep(app, two, word).0, CVA_ACK_MASK);
    }
  }

  /** The two masks test one bit each. */
  lemma TwoBits(word: bv32)
    ensures IsPause(word) <==> word & 0x0110_0000 == 0
    ensures IsResume(word) <==> word & 0x0100_0000 != 0
    ensures word & 0x0110_0000 == 0x0010_0000 ==> !IsPause(word) && !IsResume(word)
  {
  }

  const PMU_IRQ_BASE: nat := 156

  /** The globals of the trap handler, one entry per hart, and the command words. */
  class Traps {
    const words: array<bv32>
    const paused: array<nat>
    const counterVal: array<bv32>
    const savedMepc: array<nat>
    ghost var acted: seq<seq<bv32>>
    ghost var pausePcs: seq<seq<nat>>
    ghost var resumePcs: seq<seq<nat>>

    ghost predicate Valid()
      reads this
    {
      && words.Length == paused.Length == counterVal.Length == savedMepc.Length == NUM_CORES
      && |acted| == |pausePcs| == |resumePcs| == NUM_CORES
      && words != counterVal && paused != savedMepc
      && words as object !in {paused as object, savedMepc as object}
      && counterVal as object !in {paused as object, savedMepc as object}
    }

    constructor (words: array<bv32>)
      requires words.Length == NUM_CORES
      ensures Valid() && this.words == words && fresh(paused) && fresh(counterVal) && fresh(savedMepc)
      ensures forall c :: 0 <= c < NUM_CORES ==>
                paused[c] == 0 && acted[c] == [] && pausePcs[c] == [] && resumePcs[c] == []
    {
      this.words := words;
      paused := new nat[NUM_CORES](_ => 0);
      counterVal := new bv32[NUM_CORES](_ => 0);
      savedMepc := new nat[NUM_CORES](_ => 0);
      acted, pausePcs, resumePcs := [[], [], [], []], [[], [], [], []], [[], [], [], []];
    }

    /** Hart c as the transition system sees it. */
    ghost function View(c: nat, stage: Stage, mepc: nat, mepcRead: nat): Hart<()>
      requires Valid() && c < NUM_CORES
      reads this, paused, counterVal, savedMepc
    {
      Hart(0, (), stage, mepc, mepcRead, counterVal[c], savedMepc[c], paused[c],
           acted[c], pausePcs[c], resumePcs[c], [], [])
    }

    /** handle_trap_c on hart c: `external` says whether mcause is a machine external interrupt,
        `claimed` what the PLIC returned. The result is the mepc CSR on the way out. */
    method HandleTrap(app: App<()>, c: nat, external: bool, claimed: nat, mepc: nat) returns (mepc': nat)
      requires Valid() && c < NUM_CORES
      modifies this, words, paused, counterVal, savedMepc
      ensures Valid()
      ensures external && claimed == PMU_IRQ_BASE + c ==>
                (View(c, Returning, mepc', mepc), words[c])
                == DriveHandler(app, Claim(Trap(old(View(c, Running, mepc, mepc)).(pc := mepc)), true).(pc := 0),
                                old(words[c]))
      ensures external && claimed == 156 + c && old(words[c]) & 0x0110_0000 == 0 ==>
                mepc' == app.wfi && savedMepc[c] == mepc && paused[c] == 1 && words[c] == 0x0010_0000
      ensures external && claimed == 156 + c && old(words[c]) & 0x0100_0000 != 0 ==>
                mepc' == old(savedMepc[c]) && savedMepc[c] == old(savedMepc[c]) && paused[c] == 0
                && words[c] == 0x0010_0000
      ensures external && claimed == 156 + c && old(words[c]) & 0x0110_0000 == 0x0010_0000 ==>
                mepc' == mepc && words[c] == old(words[c]) && paused[c] == old(paused[c])
      ensures !(external && claimed == PMU_IRQ_BASE + c) ==>
                View(c, Returning, mepc', mepc) == old(View(c, Returning, mepc, mepc)) && words[c] == old(words[c])
      ensures forall i :: 0 <= i < NUM_CORES && i != c ==>
                words[i] == old(words[i]) && View(i, Running, 0, 0) == old(View(i, Running, 0, 0))
    {
      mepc' := mepc;
      TwoBits(words[c]);
      if external && claimed == PMU_IRQ_BASE + c {
        DriveHandles(app, Claim(Trap(View(c, Running, mepc, mepc).(pc := mepc)), true).(pc := 0), words[c]);
        counterVal[c] := words[c];
        if counterVal[c] & PMU_PR_MASK == 0 && counterVal[c] & CVA_ACK_MASK == 0 {
          savedMepc[c] := mepc;
          pausePcs := pausePcs[c := pausePcs[c] + [mepc]];
          mepc' := app.wfi;
          paused[c] := 1;
          acted := acted[c := acted[c] + [counterVal[c]]];
          words[c] := CVA_ACK_MASK;
        } else if counterVal[c] & PMU_PR_MASK == PMU_PR_MASK {
          mepc' := savedMepc[c];
          resumePcs := resumePcs[c := resumePcs[c] + [savedMepc[c]]];
          paused[c] := 0;
          acted := acted[c := acted[c] + [counterVal[c]]];
          words[c] := CVA_ACK_MASK;
        }
      }
    }
  }
}
