/** The pause/resume protocol between the memory-policing firmware and the trap handlers of the
    four harts, as a transition system with one step per shared 32-bit access. Steps of the
    firmware, the handlers, the applications and the interrupt hardware interleave freely. */
module PauseProtocol {
  import opened Options
  import opened Machine32
  import Regulator

  const NUM_CORES: nat := 4

  // Bits and values of a core's command word (counters 0-3).
  const CVA_ACK_MASK: bv32 := 0x0010_0000
  const PMU_PR_MASK: bv32 := 0x0100_0000
  const CMD_PAUSE: bv32 := 0x4000_0000
  const CMD_RESUME: bv32 := 0x4100_0000

  predicate Acked(word: bv32) { word & CVA_ACK_MASK == CVA_ACK_MASK }

  predicate IsPause(word: bv32) { word & PMU_PR_MASK == 0 && word & CVA_ACK_MASK == 0 }

  predicate IsResume(word: bv32) { word & PMU_PR_MASK == PMU_PR_MASK }

  // ---- applications ----

  /** The program a hart runs when it is not interrupted: `next` maps a program counter, the rest
      of the architectural state and whatever the step reads from outside to its successor.
      `wfi` is the address of wfi_loop, two instructions long. */
  datatype App<!S> = App(next: (nat, S, int) -> (nat, S), wfi: nat)
  {
    predicate InWfi(pc: nat) { pc == wfi || pc == wfi + 4 }
  }

  /** The application's own code never jumps into wfi_loop. */
  ghost predicate AvoidsWfi<S(!new)>(app: App<S>)
  {
    forall pc, regs: S, input :: !app.InWfi(pc) ==> !app.InWfi(app.next(pc, regs, input).0)
  }

  /** The application run without any interrupt, on a list of inputs. */
  function Uninterrupted<S>(app: App<S>, pc: nat, regs: S, inputs: seq<int>): (nat, S)
  {
    if inputs == [] then (pc, regs)
    else
      var (pc', regs') := Uninterrupted(app, pc, regs, inputs[..|inputs| - 1]);
      app.next(pc', regs', inputs[|inputs| - 1])
  }

  // ---- one hart and its trap handler ----

  /** Where a hart is: `Running` outside the handler, otherwise just after the named action. */
  datatype Stage =
    | Running
    | Entered
    | Claimed
    | GotWord
    | PauseSaved
    | PauseRedirected
    | PauseFlagged
    | ResumeRestored
    | ResumeFlagged
    | Returning

  /** `mepc` is the CSR, `mepcRead` and `counterVal` are what the handler read, `savedMepc` and
      `paused` its globals. The last five fields record history: commands acted on, pcs saved by
      pauses and restored by resumes, application pcs executed and the inputs they consumed. */
  datatype Hart<S> = Hart(
    pc: nat, regs: S, stage: Stage,
    mepc: nat, mepcRead: nat, counterVal: bv32,
    savedMepc: nat, paused: nat,
    acted: seq<bv32>, pausePcs: seq<nat>, resumePcs: seq<nat>,
    trace: seq<nat>, inputs: seq<int>)

  /** The interrupt arrives: the hardware saves the pc and enters the handler. */
  function Trap<S>(h: Hart<S>): Hart<S>
  {
    h.(mepc := h.pc, stage := Entered)
  }

  /** The handler reads mepc and claims from the PLIC; a foreign or empty claim just returns. */
  function Claim<S>(h: Hart<S>, expected: bool): Hart<S>
  {
    h.(mepcRead := h.mepc, stage := if expected then Claimed else Returning)
  }

  /** The handler's next access or CSR write; the result's second part is what it writes to the
      command word, if anything. */
  function HandlerStep<S>(app: App<S>, h: Hart<S>, word: bv32): (Hart<S>, seq<bv32>)
    requires h.stage != Running && h.stage != Entered
  {
    match h.stage
    case Claimed => (h.(counterVal := word, stage := GotWord), [])
    case GotWord =>
      if IsPause(h.counterVal) then
        (h.(savedMepc := h.mepcRead, pausePcs := h.pausePcs + [h.mepcRead], stage := PauseSaved), [])
      else if IsResume(h.counterVal) then
        (h.(mepc := h.savedMepc, resumePcs := h.resumePcs + [h.savedMepc], stage := ResumeRestored), [])
      else
        (h.(stage := Returning), [])
    case PauseSaved => (h.(mepc := app.wfi, stage := PauseRedirected), [])
    case PauseRedirected => (h.(paused := 1, stage := PauseFlagged), [])
    case PauseFlagged => (h.(acted := h.acted + [h.counterVal], stage := Returning), [CVA_ACK_MASK])
    case ResumeRestored => (h.(paused := 0, stage := ResumeFlagged), [])
    case ResumeFlagged => (h.(acted := h.acted + [h.counterVal], stage := Returning), [CVA_ACK_MASK])
    case Returning => (h.(pc := h.mepc, stage := Running), [])
  }

  /** One instruction of whatever the hart is running: wfi_loop, or the application. */
  function Execute<S>(app: App<S>, h: Hart<S>, input: int): Hart<S>
  {
    if h.pc == app.wfi then h.(pc := app.wfi + 4)
    else if h.pc == app.wfi + 4 then h.(pc := app.wfi)
    else
      var (pc', regs') := app.next(h.pc, h.regs, input);
      h.(pc := pc', regs := regs', trace := h.trace + [h.pc], inputs := h.inputs + [input])
  }

  // ---- the firmware ----

  /** What the firmware does next for core `idx`. */
  datatype Phase =
    | Charging
    | Checking
    | Deciding
    | WritingCommand(cmd: bv32)
    | WritingFlag(cmd: bv32)
    | Counting(cmd: bv32)
    | Leaving

  /** `throttled` is counters 28-31, `irqSent` the send counts (uint32_t), `decision` the log
      decision of the iteration under way. `issued` records the commands written to each core and
      `decisions` those of the finished iterations. */
  datatype Firmware = Firmware(
    idx: nat, phase: Phase, tokens: seq<int>, throttled: seq<nat>, irqSent: seq<nat>,
    decision: nat, issued: seq<seq<bv32>>, decisions: seq<nat>)
  {
    predicate Shape() {
      idx < NUM_CORES && |tokens| == |throttled| == |irqSent| == |issued| == NUM_CORES
    }
  }

  /** The command the firmware sends for a token and a throttled flag, if any. */
  function Verdict(token: int, throttled: nat): seq<bv32>
  {
    if token < 0 && throttled == 0 then [CMD_PAUSE]
    else if token >= 0 && throttled != 0 then [CMD_RESUME]
    else []
  }

  function Charge(q: Regulator.Params, fw: Firmware, sample: Regulator.Sample): (fw': Firmware)
    requires fw.Shape()
    ensures fw'.Shape()
  {
    fw.(tokens := fw.tokens[fw.idx := Regulator.Update32(q, fw.tokens[fw.idx], sample)], phase := Checking)
  }

  /** The firmware's next access; `word` is the current core's command word. The second part is
      what it writes there, if anything. */
  function FirmwareStep(fw: Firmware, word: bv32): (r: (Firmware, seq<bv32>))
    requires fw.Shape() && !fw.phase.Charging?
    ensures r.0.Shape()
  {
    var c := fw.idx;
    match fw.phase
    case Checking => (fw.(phase := if Acked(word) then Deciding else Leaving), [])
    case Deciding =>
      var verdict := Verdict(fw.tokens[c], fw.throttled[c]);
      (fw.(phase := if verdict == [] then Leaving else WritingCommand(verdict[0])), [])
    case WritingCommand(cmd) =>
      (fw.(issued := fw.issued[c := fw.issued[c] + [cmd]], phase := WritingFlag(cmd)), [cmd])
    case WritingFlag(cmd) =>
      (fw.(throttled := fw.throttled[c := if cmd == CMD_PAUSE then 1 else 0], phase := Counting(cmd)), [])
    case Counting(cmd) =>
      (fw.(irqSent := fw.irqSent[c := U32(fw.irqSent[c] + 1)],
           decision := if c != 0 then fw.decision else if cmd == CMD_PAUSE then 1 else 2,
           phase := Leaving), [])
    case Leaving =>
      if c + 1 < NUM_CORES then (fw.(idx := c + 1, phase := Charging), [])
      else (fw.(idx := 0, phase := Charging, decision := 0, decisions := fw.decisions + [fw.decision]), [])
  }

  // ---- the whole system ----

  datatype State<S> = State(fw: Firmware, words: seq<bv32>, harts: seq<Hart<S>>)
  {
    predicate Shape() { fw.Shape() && |words| == |harts| == NUM_CORES }
  }

  /** Who moves, with what the environment supplies: counter readings, claims, inputs. */
  datatype Event =
    | FwCharge(sample: Regulator.Sample)
    | FwAccess
    | Interrupt(c: nat)
    | PlicClaim(c: nat, expected: bool)
    | HandlerAccess(c: nat)
    | AppStep(c: nat, input: int)

  /** An interrupt may arrive whenever the handler is not running, for any reason or none. */
  predicate Enabled<S>(s: State<S>, e: Event)
  {
    s.Shape() &&
    match e
    case FwCharge(_) => s.fw.phase.Charging?
    case FwAccess => !s.fw.phase.Charging?
    case Interrupt(c) => c < NUM_CORES && s.harts[c].stage == Running
    case PlicClaim(c, _) => c < NUM_CORES && s.harts[c].stage == Entered
    case HandlerAccess(c) => c < NUM_CORES && s.harts[c].stage != Running && s.harts[c].stage != Entered
    case AppStep(c, _) => c < NUM_CORES && s.harts[c].stage == Running
  }

  /** What the event writes to a command word: core and value, or nothing. */
  function WordWrite<S>(app: App<S>, s: State<S>, e: Event): seq<(nat, bv32)>
    requires Enabled(s, e)
  {
    match e
    case FwAccess =>
      var out := FirmwareStep(s.fw, s.words[s.fw.idx]).1;
      if out == [] then [] else [(s.fw.idx, out[0])]
    case HandlerAccess(c) =>
      var out := HandlerStep(app, s.harts[c], s.words[c]).1;
      if out == [] then [] else [(c, out[0])]
    case _ => []
  }

  function Next<S>(app: App<S>, q: Regulator.Params, s: State<S>, e: Event): (s': State<S>)
    requires Enabled(s, e)
    ensures s'.Shape()
  {
    var writes := WordWrite(app, s, e);
    var words' := if writes != [] && writes[0].0 < NUM_CORES then s.words[writes[0].0 := writes[0].1] else s.words;
    match e
    case FwCharge(sample) => s.(fw := Charge(q, s.fw, sample))
    case FwAccess => s.(fw := FirmwareStep(s.fw, s.words[s.fw.idx]).0, words := words')
    case Interrupt(c) => s.(harts := s.harts[c := Trap(s.harts[c])])
    case PlicClaim(c, expected) => s.(harts := s.harts[c := Claim(s.harts[c], expected)])
    case HandlerAccess(c) =>
      s.(harts := s.harts[c := HandlerStep(app, s.harts[c], s.words[c]).0], words := words')
    case AppStep(c, input) => s.(harts := s.harts[c := Execute(app, s.harts[c], input)])
  }

  /** The state a list of events leads to, if each is enabled when its turn comes. */
  function Run<S>(app: App<S>, q: Regulator.Params, s: State<S>, events: seq<Event>): Option<State<S>>
    decreases |events|
  {
    if !s.Shape() then None
    else if events == [] then Some(s)
    else if Enabled(s, events[0]) then Run(app, q, Next(app, q, s, events[0]), events[1..])
    else None
  }

  /** A run, one event unfolded. */
  lemma RunUnfold<S>(app: App<S>, q: Regulator.Params, s: State<S>, e: Event, rest: seq<Event>)
    requires s.Shape()
    ensures Enabled(s, e) ==> Run(app, q, s, [e] + rest) == Run(app, q, Next(app, q, s, e), rest)
    ensures !Enabled(s, e) ==> Run(app, q, s, [e] + rest) == None
  {
    assert ([e] + rest)[1..] == rest;
  }

  // ---- where a run starts ----

  /** A hart about to run its application, its trap handler armed and the globals cleared. */
  predicate FreshHart<S>(app: App<S>, h: Hart<S>)
  {
    h.stage == Running && !app.InWfi(h.pc) && h.paused == 0 &&
    h.acted == [] && h.pausePcs == [] && h.resumePcs == [] && h.trace == [] && h.inputs == []
  }

  /** The firmware at the top of its first iteration, every word holding ACK, nothing throttled. */
  predicate Initial<S>(app: App<S>, s: State<S>)
  {
    s.Shape() &&
    s.fw == Firmware(0, Charging, [0, 0, 0, 0], [0, 0, 0, 0], [0, 0, 0, 0], 0, [[], [], [], []], []) &&
    (forall c :: 0 <= c < NUM_CORES ==> s.words[c] == CVA_ACK_MASK && FreshHart(app, s.harts[c]))
  }
}
