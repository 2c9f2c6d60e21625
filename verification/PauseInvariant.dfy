/** The inductive invariant of the pause/resume protocol and its preservation by every event. */
module PauseInvariant {
  import opened Options
  import opened Machine32
  import opened PauseProtocol
  import Regulator

  /** The k-th command a core is ever sent: pause, resume, pause, ... */
  function NthCommand(k: nat): bv32 { if k % 2 == 0 then CMD_PAUSE else CMD_RESUME }

  ghost predicate Alternates(cmds: seq<bv32>)
  {
    forall i :: 0 <= i < |cmds| ==> cmds[i] == NthCommand(i)
  }

  lemma WordFacts()
    ensures Acked(CVA_ACK_MASK) && !Acked(CMD_PAUSE) && !Acked(CMD_RESUME)
    ensures !IsPause(CVA_ACK_MASK) && IsPause(CMD_PAUSE) && !IsPause(CMD_RESUME)
    ensures !IsResume(CVA_ACK_MASK) && !IsResume(CMD_PAUSE) && IsResume(CMD_RESUME)
  {
  }

  /** What the firmware is doing about core c; nothing unless it is at that core. */
  function PhaseAt(fw: Firmware, c: nat): Phase { if fw.idx == c then fw.phase else Leaving }

  /** A command has been written and its bookkeeping is not finished. */
  predicate MidSend(phase: Phase) { phase.WritingFlag? || phase.Counting? }

  /** The firmware's view of one core: flag and count follow the commands issued. */
  ghost predicate FirmwareInv(phase: Phase, word: bv32, throttled: nat, sent: nat, issued: seq<bv32>)
  {
    var n := |issued|;
    && Alternates(issued)
    && (phase.Deciding? || phase.WritingCommand? ==> word == CVA_ACK_MASK)
    && (phase.WritingCommand? ==> phase.cmd == NthCommand(n))
    && (MidSend(phase) ==> n > 0 && phase.cmd == issued[n - 1])
    && throttled == (if phase.WritingFlag? then n + 1 else n) % 2
    && (if MidSend(phase) then n > 0 && sent == U32(n - 1) else sent == U32(n))
  }

  /** The word is ACK with every command acted on, or holds the one command not acted on yet. */
  ghost predicate WordInv(word: bv32, issued: seq<bv32>, acted: seq<bv32>)
  {
    && acted <= issued
    && (if word == CVA_ACK_MASK then |acted| == |issued|
        else |acted| + 1 == |issued| && word == issued[|acted|])
  }

  predicate Pausing(stage: Stage) { stage.PauseSaved? || stage.PauseRedirected? || stage.PauseFlagged? }

  predicate Resuming(stage: Stage) { stage.ResumeRestored? || stage.ResumeFlagged? }

  /** Where the hart is, or will return to. */
  function Cursor<S>(h: Hart<S>): nat { if h.stage == Running then h.pc else h.mepc }

  /** Where the application is: at the cursor, or where the pause found it. */
  function LogicalPc<S>(app: App<S>, h: Hart<S>): nat
  {
    if app.InWfi(Cursor(h)) then h.savedMepc else Cursor(h)
  }

  /** The handler's globals, CSRs and local variables at each stage. */
  ghost predicate HandlerInv<S>(app: App<S>, word: bv32, h: Hart<S>)
  {
    var k := |h.acted|;
    && h.paused == (if h.stage.PauseFlagged? || h.stage.ResumeFlagged? then k + 1 else k) % 2
    && (h.stage == GotWord ==> h.counterVal == CVA_ACK_MASK || h.counterVal == word)
    && (h.stage == Claimed || h.stage == GotWord || h.stage == PauseSaved ==> h.mepcRead == h.mepc)
    && (Pausing(h.stage) ==> word == CMD_PAUSE == h.counterVal && k % 2 == 0)
    && (Resuming(h.stage) ==> word == CMD_RESUME == h.counterVal && k % 2 == 1)
    && (h.stage == PauseSaved || Resuming(h.stage) ==> h.mepc == h.savedMepc)
    && (h.stage == PauseRedirected || h.stage == PauseFlagged ==> h.mepc == app.wfi)
    && (!Pausing(h.stage) && !Resuming(h.stage) ==> (app.InWfi(Cursor(h)) <==> k % 2 == 1))
    && (k > 0 || Pausing(h.stage) ==> !app.InWfi(h.savedMepc))
    && (forall i :: 0 <= i < |h.pausePcs| ==> !app.InWfi(h.pausePcs[i]))
  }

  /** Saved and restored program counters pair up; k commands have been acted on. */
  ghost predicate PcHistory(k: nat, pausing: bool, resuming: bool, saved: nat, pausePcs: seq<nat>, resumePcs: seq<nat>)
  {
    && |pausePcs| == (k + 1) / 2 + (if pausing then 1 else 0)
    && |resumePcs| == k / 2 + (if resuming then 1 else 0)
    && resumePcs <= pausePcs
    && (pausePcs != [] ==> saved == pausePcs[|pausePcs| - 1])
  }

  ghost predicate PcHistoryInv<S>(h: Hart<S>)
  {
    PcHistory(|h.acted|, Pausing(h.stage), Resuming(h.stage), h.savedMepc, h.pausePcs, h.resumePcs)
  }

  /** Inputs and pcs so far are those of the uninterrupted run, which has now reached pc, regs. */
  ghost predicate FollowsUninterrupted<S>(app: App<S>, pc0: nat, regs0: S, inputs: seq<int>, trace: seq<nat>,
                                          pc: nat, regs: S)
  {
    && Uninterrupted(app, pc0, regs0, inputs) == (pc, regs)
    && |trace| == |inputs|
    && forall i :: 0 <= i < |trace| ==> trace[i] == Uninterrupted(app, pc0, regs0, inputs[..i]).0
  }

  /** The application has executed what it would have executed without interrupts. */
  ghost predicate TraceInv<S>(app: App<S>, origin: Hart<S>, h: Hart<S>)
  {
    FollowsUninterrupted(app, origin.pc, origin.regs, h.inputs, h.trace, LogicalPc(app, h), h.regs)
  }

  /** Replaying log decisions: 1 halts, 2 resumes, anything else leaves the flag alone. */
  function Replayed(flag: nat, decision: nat): nat
  {
    if decision == 1 then 1 else if decision == 2 then 0 else flag
  }

  function Replay(decisions: seq<nat>): nat
  {
    if decisions == [] then 0
    else Replayed(Replay(decisions[..|decisions| - 1]), decisions[|decisions| - 1])
  }

  /** Core 0's flag is what its decisions add up to, with the decision about to be logged. */
  predicate DecisionInv(fw: Firmware)
    requires fw.Shape()
  {
    var flag := Replay(fw.decisions);
    if fw.idx == 0 && !fw.phase.Leaving? then
      && fw.decision == 0
      && (if fw.phase.Counting? then fw.throttled[0] == (if fw.phase.cmd == CMD_PAUSE then 1 else 0)
          else fw.throttled[0] == flag)
    else fw.throttled[0] == Replayed(flag, fw.decision)
  }

  predicate TokensCapped(q: Regulator.Params, tokens: seq<int>)
  {
    forall c :: 0 <= c < |tokens| ==> tokens[c] <= Regulator.Cap32(q)
  }

  predicate TokensFit(tokens: seq<int>)
  {
    forall c :: 0 <= c < |tokens| ==> IsS32(tokens[c])
  }

  ghost predicate CoreInv<S>(app: App<S>, origin: Hart<S>, s: State<S>, c: nat)
    requires s.Shape() && c < NUM_CORES
  {
    && FirmwareInv(PhaseAt(s.fw, c), s.words[c], s.fw.throttled[c], s.fw.irqSent[c], s.fw.issued[c])
    && WordInv(s.words[c], s.fw.issued[c], s.harts[c].acted)
    && HandlerInv(app, s.words[c], s.harts[c])
    && PcHistoryInv(s.harts[c])
    && TraceInv(app, origin, s.harts[c])
  }

  ghost predicate Inv<S>(app: App<S>, q: Regulator.Params, origin: State<S>, s: State<S>)
  {
    && origin.Shape() && s.Shape()
    && (forall c :: 0 <= c < NUM_CORES ==> CoreInv(app, origin.harts[c], s, c))
    && DecisionInv(s.fw)
    && TokensFit(s.fw.tokens)
    && (Regulator.Cap32(q) >= 0 ==> TokensCapped(q, s.fw.tokens))
  }

  lemma InitialInv<S>(app: App<S>, q: Regulator.Params, s: State<S>)
    requires Initial(app, s)
    ensures Inv(app, q, s, s)
  {
    forall c | 0 <= c < NUM_CORES ensures CoreInv(app, s.harts[c], s, c) {
      WordFacts();
    }
  }

  // ---- firmware events ----

  lemma FirmwareStepInv(fw: Firmware, word: bv32, acted: seq<bv32>)
    requires fw.Shape() && !fw.phase.Charging?
    requires var c := fw.idx; FirmwareInv(fw.phase, word, fw.throttled[c], fw.irqSent[c], fw.issued[c])
    requires WordInv(word, fw.issued[fw.idx], acted)
    ensures var c, r := fw.idx, FirmwareStep(fw, word);
            var word' := if r.1 == [] then word else r.1[0];
            FirmwareInv(PhaseAt(r.0, c), word', r.0.throttled[c], r.0.irqSent[c], r.0.issued[c])
            && WordInv(word', r.0.issued[c], acted)
    ensures FirmwareStep(fw, word).1 != [] ==> word == CVA_ACK_MASK
  {
    WordFacts();
  }

  lemma FirmwareElsewhere(fw: Firmware, word: bv32, c: nat)
    requires fw.Shape() && !fw.phase.Charging? && c < NUM_CORES && c != fw.idx
    ensures var r := FirmwareStep(fw, word).0;
            r.throttled[c] == fw.throttled[c] && r.irqSent[c] == fw.irqSent[c] && r.issued[c] == fw.issued[c]
            && (PhaseAt(r, c).Leaving? || PhaseAt(r, c).Charging?)
  {
  }

  lemma DecisionStep(fw: Firmware, word: bv32, word0: bv32)
    requires fw.Shape() && !fw.phase.Charging? && DecisionInv(fw)
    requires FirmwareInv(PhaseAt(fw, 0), word0, fw.throttled[0], fw.irqSent[0], fw.issued[0])
    ensures DecisionInv(FirmwareStep(fw, word).0)
  {
    var fw' := FirmwareStep(fw, word).0;
    if fw.phase.Leaving? && fw.idx + 1 == NUM_CORES {
      assert fw'.decisions[..|fw'.decisions| - 1] == fw.decisions;
    }
  }

  /** While the word is ACK the handler is in no position to notice that it changes. */
  lemma HandlerIgnoresIssue<S>(app: App<S>, word: bv32, h: Hart<S>)
    requires HandlerInv(app, CVA_ACK_MASK, h)
    ensures HandlerInv(app, word, h)
  {
    WordFacts();
  }

  lemma FirmwareCoreInv<S>(app: App<S>, q: Regulator.Params, origin: Hart<S>, s: State<S>, c: nat)
    requires Enabled(s, FwAccess) && c < NUM_CORES
    requires CoreInv(app, origin, s, c)
    ensures CoreInv(app, origin, Next(app, q, s, FwAccess), c)
  {
    if c == s.fw.idx {
      FirmwareStepInv(s.fw, s.words[c], s.harts[c].acted);
      var out := FirmwareStep(s.fw, s.words[c]).1;
      if out != [] {
        HandlerIgnoresIssue(app, out[0], s.harts[c]);
      }
    } else {
      FirmwareElsewhere(s.fw, s.words[s.fw.idx], c);
    }
  }

  lemma FirmwareAccessInv<S>(app: App<S>, q: Regulator.Params, origin: State<S>, s: State<S>)
    requires Inv(app, q, origin, s) && Enabled(s, FwAccess)
    ensures Inv(app, q, origin, Next(app, q, s, FwAccess))
  {
    var s' := Next(app, q, s, FwAccess);
    forall c | 0 <= c < NUM_CORES ensures CoreInv(app, origin.harts[c], s', c) {
      FirmwareCoreInv(app, q, origin.harts[c], s, c);
    }
    assert CoreInv(app, origin.harts[0], s, 0);
    DecisionStep(s.fw, s.words[s.fw.idx], s.words[0]);
  }

  lemma ChargeInv<S>(app: App<S>, q: Regulator.Params, origin: State<S>, s: State<S>, sample: Regulator.Sample)
    requires Inv(app, q, origin, s) && Enabled(s, FwCharge(sample))
    ensures Inv(app, q, origin, Next(app, q, s, FwCharge(sample)))
  {
    var s' := Next(app, q, s, FwCharge(sample));
    forall c | 0 <= c < NUM_CORES ensures CoreInv(app, origin.harts[c], s', c) {
      assert CoreInv(app, origin.harts[c], s, c);
    }
  }

  // ---- hart events ----

  /** Everything about one core that its hart's events can change. */
  ghost predicate HartInv<S>(app: App<S>, origin: Hart<S>, word: bv32, issued: seq<bv32>, h: Hart<S>)
  {
    && WordInv(word, issued, h.acted) && HandlerInv(app, word, h) && PcHistoryInv(h) && TraceInv(app, origin, h)
  }

  lemma HandlerStepInv<S>(app: App<S>, origin: Hart<S>, word: bv32, issued: seq<bv32>, h: Hart<S>)
    requires Alternates(issued) && HartInv(app, origin, word, issued, h)
    requires h.stage != Running && h.stage != Entered
    ensures var r := HandlerStep(app, h, word);
            var word' := if r.1 == [] then word else r.1[0];
            HartInv(app, origin, word', issued, r.0)
    ensures HandlerStep(app, h, word).1 != [] ==> !Acked(word) && HandlerStep(app, h, word).1 == [CVA_ACK_MASK]
  {
    WordFacts();
    HandlerStepControl(app, word, issued, h);
    HandlerStepPcs(app, word, issued, h);
    var h' := HandlerStep(app, h, word).0;
    assert LogicalPc(app, h') == LogicalPc(app, h);
  }

  lemma HandlerStepControl<S>(app: App<S>, word: bv32, issued: seq<bv32>, h: Hart<S>)
    requires Alternates(issued) && WordInv(word, issued, h.acted) && HandlerInv(app, word, h)
    requires h.stage != Running && h.stage != Entered
    ensures var r := HandlerStep(app, h, word);
            var word' := if r.1 == [] then word else r.1[0];
            WordInv(word', issued, r.0.acted) && HandlerInv(app, word', r.0)
  {
    WordFacts();
    if h.stage == GotWord {
      GotWordParity(app, word, issued, h);
    } else if h.stage == PauseFlagged || h.stage == ResumeFlagged {
      AcknowledgeControl(app, word, issued, h);
    }
  }

  /** Acknowledging completes a pause or a resume. */
  lemma AcknowledgeControl<S>(app: App<S>, word: bv32, issued: seq<bv32>, h: Hart<S>)
    requires Alternates(issued) && WordInv(word, issued, h.acted) && HandlerInv(app, word, h)
    requires h.stage == PauseFlagged || h.stage == ResumeFlagged
    ensures var h' := HandlerStep(app, h, word).0;
            WordInv(CVA_ACK_MASK, issued, h'.acted) && HandlerInv(app, CVA_ACK_MASK, h')
  {
    WordFacts();
    assert h.acted + [word] == issued;
  }

  lemma HandlerStepPcs<S>(app: App<S>, word: bv32, issued: seq<bv32>, h: Hart<S>)
    requires Alternates(issued) && WordInv(word, issued, h.acted) && HandlerInv(app, word, h) && PcHistoryInv(h)
    requires h.stage != Running && h.stage != Entered
    ensures PcHistoryInv(HandlerStep(app, h, word).0)
  {
    var k := |h.acted|;
    if h.stage == GotWord {
      GotWordParity(app, word, issued, h);
      StartPause(k, h.savedMepc, h.pausePcs, h.resumePcs, h.mepcRead);
      StartResume(k, h.savedMepc, h.pausePcs, h.resumePcs);
    } else {
      Finish(k, Pausing(h.stage), Resuming(h.stage), h.savedMepc, h.pausePcs, h.resumePcs);
    }
  }

  lemma StartPause(k: nat, saved: nat, pausePcs: seq<nat>, resumePcs: seq<nat>, pc: nat)
    requires PcHistory(k, false, false, saved, pausePcs, resumePcs)
    ensures PcHistory(k, true, false, pc, pausePcs + [pc], resumePcs)
  {
  }

  lemma StartResume(k: nat, saved: nat, pausePcs: seq<nat>, resumePcs: seq<nat>)
    requires PcHistory(k, false, false, saved, pausePcs, resumePcs)
    ensures k % 2 == 1 ==> PcHistory(k, false, true, saved, pausePcs, resumePcs + [saved])
  {
  }

  lemma Finish(k: nat, pausing: bool, resuming: bool, saved: nat, pausePcs: seq<nat>, resumePcs: seq<nat>)
    requires PcHistory(k, pausing, resuming, saved, pausePcs, resumePcs)
    ensures pausing && !resuming && k % 2 == 0 ==> PcHistory(k + 1, false, false, saved, pausePcs, resumePcs)
    ensures resuming && !pausing && k % 2 == 1 ==> PcHistory(k + 1, false, false, saved, pausePcs, resumePcs)
  {
  }

  /** A pause is seen only when an even number of commands was acted on, a resume only when odd. */
  lemma GotWordParity<S>(app: App<S>, word: bv32, issued: seq<bv32>, h: Hart<S>)
    requires Alternates(issued) && WordInv(word, issued, h.acted) && HandlerInv(app, word, h) && h.stage == GotWord
    ensures IsPause(h.counterVal) ==> |h.acted| % 2 == 0 && word == CMD_PAUSE == h.counterVal
    ensures IsResume(h.counterVal) ==> |h.acted| % 2 == 1 && word == CMD_RESUME == h.counterVal
  {
    WordFacts();
  }

  lemma FollowOneMore<S>(app: App<S>, pc0: nat, regs0: S, inputs: seq<int>, trace: seq<nat>, pc: nat, regs: S,
                         input: int)
    requires FollowsUninterrupted(app, pc0, regs0, inputs, trace, pc, regs)
    ensures var (pc', regs') := app.next(pc, regs, input);
            FollowsUninterrupted(app, pc0, regs0, inputs + [input], trace + [pc], pc', regs')
  {
    var inputs', trace' := inputs + [input], trace + [pc];
    assert inputs'[..|inputs'| - 1] == inputs;
    forall i | 0 <= i < |trace'| ensures trace'[i] == Uninterrupted(app, pc0, regs0, inputs'[..i]).0 {
      if i < |trace| {
        assert inputs'[..i] == inputs[..i];
      }
    }
  }

  /** wfi_loop never ends; anything else is a step of the uninterrupted application. */
  lemma ExecuteTrace<S(!new)>(app: App<S>, origin: Hart<S>, h: Hart<S>, input: int)
    requires AvoidsWfi(app) && TraceInv(app, origin, h) && h.stage == Running
    ensures TraceInv(app, origin, Execute(app, h, input))
  {
    if !app.InWfi(h.pc) {
      FollowOneMore(app, origin.pc, origin.regs, h.inputs, h.trace, h.pc, h.regs, input);
      assert !app.InWfi(app.next(h.pc, h.regs, input).0);
    }
  }

  lemma ExecuteControl<S(!new)>(app: App<S>, word: bv32, h: Hart<S>, input: int)
    requires AvoidsWfi(app) && HandlerInv(app, word, h) && PcHistoryInv(h) && h.stage == Running
    ensures var h' := Execute(app, h, input);
            HandlerInv(app, word, h') && PcHistoryInv(h') && h'.acted == h.acted
  {
    if !app.InWfi(h.pc) {
      assert !app.InWfi(app.next(h.pc, h.regs, input).0);
    }
  }

  /** The firmware's claims about a core survive the handler's acknowledgement. */
  lemma AcknowledgeKeepsFirmware(phase: Phase, word: bv32, throttled: nat, sent: nat, issued: seq<bv32>)
    requires FirmwareInv(phase, word, throttled, sent, issued) && word != CVA_ACK_MASK
    ensures FirmwareInv(phase, CVA_ACK_MASK, throttled, sent, issued)
  {
  }

  ghost predicate HartEvent(e: Event) { !e.FwCharge? && !e.FwAccess? }

  lemma HandlerCoreInv<S>(app: App<S>, q: Regulator.Params, origin: Hart<S>, s: State<S>, c: nat)
    requires Enabled(s, HandlerAccess(c)) && CoreInv(app, origin, s, c)
    ensures CoreInv(app, origin, Next(app, q, s, HandlerAccess(c)), c)
  {
    var h, word, issued := s.harts[c], s.words[c], s.fw.issued[c];
    HandlerStepInv(app, origin, word, issued, h);
    if HandlerStep(app, h, word).1 != [] {
      WordFacts();
      AcknowledgeKeepsFirmware(PhaseAt(s.fw, c), word, s.fw.throttled[c], s.fw.irqSent[c], issued);
    }
  }

  lemma HartCoreInv<S(!new)>(app: App<S>, q: Regulator.Params, origin: Hart<S>, s: State<S>, e: Event)
    requires AvoidsWfi(app) && Enabled(s, e) && HartEvent(e) && CoreInv(app, origin, s, e.c)
    ensures CoreInv(app, origin, Next(app, q, s, e), e.c)
  {
    match e {
      case HandlerAccess(c) => HandlerCoreInv(app, q, origin, s, c);
      case AppStep(c, input) =>
        ExecuteControl(app, s.words[c], s.harts[c], input);
        ExecuteTrace(app, origin, s.harts[c], input);
      case _ =>
    }
  }

  lemma HartEventFrame<S>(app: App<S>, q: Regulator.Params, s: State<S>, e: Event, c: nat)
    requires Enabled(s, e) && HartEvent(e) && c < NUM_CORES && c != e.c
    ensures var s' := Next(app, q, s, e); s'.fw == s.fw && s'.words[c] == s.words[c] && s'.harts[c] == s.harts[c]
  {
  }

  lemma HartEventInv<S(!new)>(app: App<S>, q: Regulator.Params, origin: State<S>, s: State<S>, e: Event)
    requires AvoidsWfi(app) && Inv(app, q, origin, s) && Enabled(s, e) && HartEvent(e)
    ensures Inv(app, q, origin, Next(app, q, s, e))
  {
    var s' := Next(app, q, s, e);
    assert s'.fw == s.fw;
    forall c | 0 <= c < NUM_CORES ensures CoreInv(app, origin.harts[c], s', c) {
      assert CoreInv(app, origin.harts[c], s, c);
      if c == e.c {
        HartCoreInv(app, q, origin.harts[c], s, e);
      } else {
        HartEventFrame(app, q, s, e, c);
      }
    }
  }

  // ---- runs ----

  lemma StepInv<S(!new)>(app: App<S>, q: Regulator.Params, origin: State<S>, s: State<S>, e: Event)
    requires AvoidsWfi(app) && Inv(app, q, origin, s) && Enabled(s, e)
    ensures Inv(app, q, origin, Next(app, q, s, e))
  {
    match e {
      case FwCharge(sample) => ChargeInv(app, q, origin, s, sample);
      case FwAccess => FirmwareAccessInv(app, q, origin, s);
      case _ => HartEventInv(app, q, origin, s, e);
    }
  }

  lemma {:induction false} InvAlong<S(!new)>(app: App<S>, q: Regulator.Params, s0: State<S>, s: State<S>,
                                             events: seq<Event>, s': State<S>)
    requires AvoidsWfi(app) && Inv(app, q, s0, s) && Run(app, q, s, events) == Some(s')
    ensures Inv(app, q, s0, s')
    decreases |events|
  {
    if events != [] {
      StepInv(app, q, s0, s, events[0]);
      InvAlong(app, q, s0, Next(app, q, s, events[0]), events[1..], s');
    }
  }

  /** The invariant holds after every run from an initial state. */
  lemma RunInv<S(!new)>(app: App<S>, q: Regulator.Params, s: State<S>, events: seq<Event>, s': State<S>)
    requires AvoidsWfi(app) && Initial(app, s) && Run(app, q, s, events) == Some(s')
    ensures Inv(app, q, s, s')
  {
    InitialInv(app, q, s);
    InvAlong(app, q, s, s, events, s');
  }
}
