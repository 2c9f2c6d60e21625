/** What the pause/resume protocol guarantees, for every run from an initial state. */
module PauseTheorems {
  import opened Options
  import opened Machine32
  import opened PauseProtocol
  import opened PauseInvariant
  import Regulator

  // ---- transparency ----

  /** After every run, and whatever the interleaving, each application has executed exactly the pcs
      of a run without interrupts and stands (or will stand again) where that run stands; no pause
      ever saved an address inside wfi_loop; and the i-th resume restored what the i-th pause saved. */
  lemma Transparency<S(!new)>(app: App<S>, q: Regulator.Params, s0: State<S>, events: seq<Event>, s: State<S>, c: nat)
    requires AvoidsWfi(app) && Initial(app, s0) && Run(app, q, s0, events) == Some(s) && c < NUM_CORES
    ensures s.Shape()
    ensures var h0, h := s0.harts[c], s.harts[c];
            && Uninterrupted(app, h0.pc, h0.regs, h.inputs) == (LogicalPc(app, h), h.regs)
            && |h.trace| == |h.inputs|
            && (forall i :: 0 <= i < |h.trace| ==>
                  h.trace[i] == Uninterrupted(app, h0.pc, h0.regs, h.inputs[..i]).0)
    ensures var h := s.harts[c];
            && (forall i :: 0 <= i < |h.pausePcs| ==> !app.InWfi(h.pausePcs[i]))
            && h.resumePcs <= h.pausePcs && |h.pausePcs| <= |h.resumePcs| + 1
            && (h.pausePcs != [] ==> h.savedMepc == h.pausePcs[|h.pausePcs| - 1])
  {
    RunInv(app, q, s0, events, s);
    assert CoreInv(app, s0.harts[c], s, c);
  }

  /** Refinement: in every reachable state an event either leaves an application where it is, or is
      one step of it, taken from its logical pc. */
  lemma Refinement<S(!new)>(app: App<S>, q: Regulator.Params, s0: State<S>, events: seq<Event>, s: State<S>,
                            e: Event, c: nat)
    requires AvoidsWfi(app) && Initial(app, s0) && Run(app, q, s0, events) == Some(s)
    requires Enabled(s, e) && c < NUM_CORES
    ensures var h, h' := s.harts[c], Next(app, q, s, e).harts[c];
            if e.AppStep? && e.c == c && !app.InWfi(h.pc) then
              (LogicalPc(app, h'), h'.regs) == app.next(LogicalPc(app, h), h.regs, e.input)
              && h'.trace == h.trace + [LogicalPc(app, h)]
            else
              (LogicalPc(app, h'), h'.regs) == (LogicalPc(app, h), h.regs) && h'.trace == h.trace
  {
    RunInv(app, q, s0, events, s);
    var h, word := s.harts[c], s.words[c];
    assert CoreInv(app, s0.harts[c], s, c);
    if e.HandlerAccess? && e.c == c {
      HandlerKeepsPc(app, word, s.fw.issued[c], h);
    } else if e.AppStep? && e.c == c && !app.InWfi(h.pc) {
      assert !app.InWfi(app.next(h.pc, h.regs, e.input).0);
    }
  }

  lemma HandlerKeepsPc<S>(app: App<S>, word: bv32, issued: seq<bv32>, h: Hart<S>)
    requires Alternates(issued) && WordInv(word, issued, h.acted) && HandlerInv(app, word, h)
    requires h.stage != Running && h.stage != Entered
    ensures var h' := HandlerStep(app, h, word).0;
            LogicalPc(app, h') == LogicalPc(app, h) && h'.regs == h.regs && h'.trace == h.trace
  {
    WordFacts();
  }

  // ---- ownership of the command word ----

  /** ACK is an ownership token: the firmware writes a command word only while it holds ACK and
      every command issued has been acted on; a handler writes one only while it holds a command,
      writes ACK, and has then acted on exactly that command. */
  lemma Ownership<S(!new)>(app: App<S>, q: Regulator.Params, s0: State<S>, events: seq<Event>, s: State<S>, e: Event)
    requires AvoidsWfi(app) && Initial(app, s0) && Run(app, q, s0, events) == Some(s) && Enabled(s, e)
    ensures var s' := Next(app, q, s, e);
            forall w :: w in WordWrite(app, s, e) ==>
              var c := w.0;
              c < NUM_CORES &&
              if e.FwAccess? then
                Acked(s.words[c]) && s.harts[c].acted == s.fw.issued[c] && s'.fw.issued[c] == s.fw.issued[c] + [w.1]
              else
                !Acked(s.words[c]) && Acked(w.1) && s'.harts[c].acted == s.harts[c].acted + [s.words[c]]
                && s'.harts[c].acted == s'.fw.issued[c]
  {
    RunInv(app, q, s0, events, s);
    if WordWrite(app, s, e) != [] {
      var c := WordWrite(app, s, e)[0].0;
      WordFacts();
      assert CoreInv(app, s0.harts[c], s, c);
      if e.FwAccess? {
        FirmwareStepInv(s.fw, s.words[c], s.harts[c].acted);
        assert s.harts[c].acted == s.fw.issued[c];
      } else {
        HandlerStepInv(app, s0.harts[c], s.words[c], s.fw.issued[c], s.harts[c]);
        var s' := Next(app, q, s, e);
        assert s'.harts[c].acted == s.harts[c].acted + [s.words[c]];
        assert s'.fw.issued[c] == s.fw.issued[c];
      }
    }
  }

  /** No command is lost or acted on twice: the commands acted on are the commands issued, in order,
      minus the one in the word while ACK is clear; and irq_sent counts the commands issued, short
      by one only between writing a command and counting it. */
  lemma Conservation<S(!new)>(app: App<S>, q: Regulator.Params, s0: State<S>, events: seq<Event>, s: State<S>, c: nat)
    requires AvoidsWfi(app) && Initial(app, s0) && Run(app, q, s0, events) == Some(s) && c < NUM_CORES
    ensures s.Shape()
    ensures var issued, acted := s.fw.issued[c], s.harts[c].acted;
            && issued == acted + (if Acked(s.words[c]) then [] else [s.words[c]])
            && s.fw.irqSent[c] == U32(if MidSend(PhaseAt(s.fw, c)) then |issued| - 1 else |issued|)
  {
    RunInv(app, q, s0, events, s);
    assert CoreInv(app, s0.harts[c], s, c);
    NothingLost(s.words[c], s.fw.issued[c], s.harts[c].acted);
  }

  lemma NothingLost(word: bv32, issued: seq<bv32>, acted: seq<bv32>)
    requires Alternates(issued) && WordInv(word, issued, acted)
    ensures issued == acted + (if Acked(word) then [] else [word])
  {
    WordFacts();
    if word != CVA_ACK_MASK {
      assert word == NthCommand(|acted|);
      assert issued == issued[..|acted|] + [issued[|acted|]];
    }
  }

  // ---- agreement and alternation ----

  /** Commands to a core strictly alternate, pause first; the throttled flag is the parity of
      irq_sent; and once a command is acknowledged the hart's own flag agrees with it. */
  lemma Agreement<S(!new)>(app: App<S>, q: Regulator.Params, s0: State<S>, events: seq<Event>, s: State<S>, c: nat)
    requires AvoidsWfi(app) && Initial(app, s0) && Run(app, q, s0, events) == Some(s) && c < NUM_CORES
    ensures s.Shape()
    ensures forall i :: 0 <= i < |s.fw.issued[c]| ==>
              s.fw.issued[c][i] == if i % 2 == 0 then CMD_PAUSE else CMD_RESUME
    ensures !MidSend(PhaseAt(s.fw, c)) ==>
              s.fw.throttled[c] == s.fw.irqSent[c] % 2
              && (Acked(s.words[c]) ==> s.harts[c].paused == s.fw.throttled[c])
  {
    RunInv(app, q, s0, events, s);
    WordFacts();
    assert CoreInv(app, s0.harts[c], s, c);
    Parity(|s.fw.issued[c]|);
    NothingLost(s.words[c], s.fw.issued[c], s.harts[c].acted);
  }

  lemma Parity(n: nat)
    ensures U32(n) % 2 == n % 2
  {
  }

  /** At every iteration boundary, replaying core 0's logged decisions gives its throttled flag. */
  lemma ReplayedDecisions<S(!new)>(app: App<S>, q: Regulator.Params, s0: State<S>, events: seq<Event>, s: State<S>)
    requires AvoidsWfi(app) && Initial(app, s0) && Run(app, q, s0, events) == Some(s)
    ensures s.Shape()
    ensures s.fw.idx == 0 && s.fw.phase.Charging? ==> Replay(s.fw.decisions) == s.fw.throttled[0]
  {
    RunInv(app, q, s0, events, s);
  }

  /** No bucket ever holds more than the cap. */
  lemma TokenNeverAboveCap<S(!new)>(app: App<S>, q: Regulator.Params, s0: State<S>, events: seq<Event>, s: State<S>,
                                    c: nat)
    requires AvoidsWfi(app) && Initial(app, s0) && Run(app, q, s0, events) == Some(s) && c < NUM_CORES
    requires Regulator.Cap32(q) >= 0
    ensures s.Shape() && s.fw.tokens[c] <= Regulator.Cap32(q)
  {
    RunInv(app, q, s0, events, s);
  }

  // ---- how long a throttled core waits ----

  /** The event charges core c for one period. */
  predicate ChargesCore<S>(s: State<S>, e: Event, c: nat) { e.FwCharge? && s.fw.idx == c }

  /** How many periods core c is charged for in a run. */
  function Periods<S>(app: App<S>, q: Regulator.Params, s: State<S>, events: seq<Event>, c: nat): nat
    decreases |events|
  {
    if events == [] || !Enabled(s, events[0]) then 0
    else
      (if ChargesCore(s, events[0], c) then 1 else 0) + Periods(app, q, Next(app, q, s, events[0]), events[1..], c)
  }

  /** Core c generates no traffic the firmware sees during the run. */
  predicate Quiet<S>(app: App<S>, q: Regulator.Params, s: State<S>, events: seq<Event>, c: nat)
    decreases |events|
  {
    events != [] && Enabled(s, events[0]) ==>
      && (ChargesCore(s, events[0], c) ==> Regulator.Traffic(q, events[0].sample) == 0)
      && Quiet(app, q, Next(app, q, s, events[0]), events[1..], c)
  }

  function CeilDiv(d: nat, a: nat): nat
    requires a > 0
  {
    (d + a - 1) / a
  }

  lemma CeilDivIsLeast(d: nat, a: nat, n: nat)
    requires a > 0
    ensures n * a >= d <==> n >= CeilDiv(d, a)
  {
    var m := CeilDiv(d, a);
    var r := (d + a - 1) % a;
    assert d + a - 1 == m * a + r;
    if n >= m {
      Monotone(m, n, a);
    } else {
      Monotone(n, m - 1, a);
      assert (m - 1) * a == m * a - a;
    }
  }

  lemma Monotone(m: nat, n: nat, a: nat)
    requires m <= n
    ensures m * a <= n * a
  {
    assert n * a == m * a + (n - m) * a;
  }

  /** One budget, and a full bucket, fit in int32_t. */
  predicate Roomy(q: Regulator.Params)
  {
    0 < Regulator.Budget(q) < TWO31 && 0 <= Regulator.Cap(q) < TWO31
  }

  /** The firmware's default parameters do. */
  lemma DefaultsAreRoomy()
    ensures Roomy(Regulator.DEFAULTS)
  {
    var q := Regulator.DEFAULTS;
    assert Regulator.Budget(q) == 172_000 && Regulator.Cap(q) == 344_000;
  }

  /** The firmware is about to charge core c, which is throttled with token -d and has acknowledged. */
  predicate Throttled<S>(s: State<S>, c: nat, d: nat)
  {
    s.Shape() && c < NUM_CORES && 0 < d && s.fw.idx == c && s.fw.phase.Charging? &&
    s.fw.tokens[c] == 0 - d && s.fw.throttled[c] != 0 && s.words[c] == CVA_ACK_MASK
  }

  /** Still inside the slot in which the resume is being sent, but before the word is written. */
  predicate AboutToSend(phase: Phase) { phase.Checking? || phase.Deciding? || phase.WritingCommand? }

  lemma ChargeWhileWaiting(q: Regulator.Params, n: nat, d: nat, token: int, sample: Regulator.Sample)
    requires Roomy(q) && Regulator.Traffic(q, sample) == 0 && d <= TWO31 && n * Regulator.Budget(q) < d
    requires token == Min(n * Regulator.Budget(q) - d, Regulator.Cap(q))
    ensures Regulator.Update32(q, token, sample)
            == Min((n + 1) * Regulator.Budget(q) - d, Regulator.Cap(q))
  {
    var a := Regulator.Budget(q);
    Regulator.UpdateAgreement(q, token, sample);
    assert (n + 1) * a == n * a + a;
    assert n * a >= 0 by { Monotone(0, n, a); }
  }

  /** The progress of the wait, on what the firmware and the command word hold for the core. */
  ghost predicate Progress(phase: Phase, word: bv32, token: int, throttled: nat, issued0: seq<bv32>, issued: seq<bv32>,
                           due: nat, n: nat)
  {
    if n < due || (n == due && AboutToSend(phase)) then
      && issued == issued0 && throttled != 0 && word == CVA_ACK_MASK && (token < 0 <==> n < due)
      && !MidSend(phase) && (phase.WritingCommand? ==> n == due)
    else
      |issued| > |issued0|
  }

  lemma ProgressAccess(fw: Firmware, word: bv32, issued0: seq<bv32>, due: nat, n: nat)
    requires fw.Shape() && !fw.phase.Charging?
    requires var c := fw.idx; Progress(fw.phase, word, fw.tokens[c], fw.throttled[c], issued0, fw.issued[c], due, n)
    ensures var c, r := fw.idx, FirmwareStep(fw, word);
            var word' := if r.1 == [] then word else r.1[0];
            Progress(PhaseAt(r.0, c), word', r.0.tokens[c], r.0.throttled[c], issued0, r.0.issued[c], due, n)
  {
    WordFacts();
  }

  ghost predicate Waiting<S>(q: Regulator.Params, issued0: seq<bv32>, s: State<S>, c: nat, d: nat, n: nat)
  {
    && s.Shape() && c < NUM_CORES && Regulator.Budget(q) > 0
    && (n <= CeilDiv(d, Regulator.Budget(q)) ==>
          s.fw.tokens[c] == Min(n * Regulator.Budget(q) - d, Regulator.Cap(q)))
    && Progress(PhaseAt(s.fw, c), s.words[c], s.fw.tokens[c], s.fw.throttled[c], issued0, s.fw.issued[c],
                CeilDiv(d, Regulator.Budget(q)), n)
  }

  lemma WaitingCharge<S>(app: App<S>, q: Regulator.Params, issued0: seq<bv32>, s: State<S>,
                         c: nat, d: nat, n: nat, sample: Regulator.Sample)
    requires s.Shape() && s.fw.phase.Charging? && s.fw.idx == c && Roomy(q) && d <= TWO31
    requires Waiting(q, issued0, s, c, d, n) && Regulator.Traffic(q, sample) == 0
    ensures Waiting(q, issued0, Next(app, q, s, FwCharge(sample)), c, d, n + 1)
  {
    CeilDivIsLeast(d, Regulator.Budget(q), n);
    CeilDivIsLeast(d, Regulator.Budget(q), n + 1);
    if n < CeilDiv(d, Regulator.Budget(q)) {
      ChargeWhileWaiting(q, n, d, s.fw.tokens[c], sample);
    }
  }

  lemma WaitingElsewhere<S>(app: App<S>, q: Regulator.Params, s: State<S>, c: nat)
    requires Enabled(s, FwAccess) && c < NUM_CORES && s.fw.idx != c
    ensures var s' := Next(app, q, s, FwAccess);
            && s'.words[c] == s.words[c] && s'.fw.tokens[c] == s.fw.tokens[c]
            && s'.fw.throttled[c] == s.fw.throttled[c] && s'.fw.issued[c] == s.fw.issued[c]
            && !AboutToSend(PhaseAt(s'.fw, c)) && !MidSend(PhaseAt(s'.fw, c))
  {
  }

  lemma WaitingStep<S(!new)>(app: App<S>, q: Regulator.Params, s0: State<S>, issued0: seq<bv32>, s: State<S>,
                             c: nat, d: nat, n: nat, e: Event)
    requires Inv(app, q, s0, s) && Enabled(s, e) && Roomy(q) && d <= TWO31
    requires Waiting(q, issued0, s, c, d, n)
    requires ChargesCore(s, e, c) ==> Regulator.Traffic(q, e.sample) == 0
    ensures Waiting(q, issued0, Next(app, q, s, e), c, d, if ChargesCore(s, e, c) then n + 1 else n)
  {
    match e {
      case FwCharge(sample) =>
        if s.fw.idx == c {
          WaitingCharge(app, q, issued0, s, c, d, n, sample);
        }
      case FwAccess =>
        if s.fw.idx == c {
          ProgressAccess(s.fw, s.words[c], issued0, CeilDiv(d, Regulator.Budget(q)), n);
        } else {
          WaitingElsewhere(app, q, s, c);
        }
      case HandlerAccess(i) =>
        assert CoreInv(app, s0.harts[i], s, i);
        HandlerStepInv(app, s0.harts[i], s.words[i], s.fw.issued[i], s.harts[i]);
        WordFacts();
      case _ =>
    }
  }

  lemma InvAndWaitingStep<S(!new)>(app: App<S>, q: Regulator.Params, s0: State<S>, issued0: seq<bv32>, s: State<S>,
                                   c: nat, d: nat, n: nat, e: Event)
    requires AvoidsWfi(app) && Inv(app, q, s0, s) && Enabled(s, e) && Roomy(q) && d <= TWO31
    requires Waiting(q, issued0, s, c, d, n)
    requires ChargesCore(s, e, c) ==> Regulator.Traffic(q, e.sample) == 0
    ensures Inv(app, q, s0, Next(app, q, s, e))
    ensures Waiting(q, issued0, Next(app, q, s, e), c, d, if ChargesCore(s, e, c) then n + 1 else n)
  {
    StepInv(app, q, s0, s, e);
    WaitingStep(app, q, s0, issued0, s, c, d, n, e);
  }

  lemma WaitingStart<S>(q: Regulator.Params, s: State<S>, c: nat, d: nat)
    requires s.Shape() && Roomy(q) && Throttled(s, c, d)
    ensures Waiting(q, s.fw.issued[c], s, c, d, 0)
  {
    CeilDivIsLeast(d, Regulator.Budget(q), 0);
  }

  lemma {:induction false} WaitingRun<S(!new)>(app: App<S>, q: Regulator.Params, s0: State<S>, issued0: seq<bv32>,
      s: State<S>, events: seq<Event>, s': State<S>, c: nat, d: nat, n: nat) returns (k: nat)
    requires AvoidsWfi(app) && Inv(app, q, s0, s) && Run(app, q, s, events) == Some(s') && Roomy(q)
    requires Waiting(q, issued0, s, c, d, n) && d <= TWO31 && Quiet(app, q, s, events, c)
    ensures k == n + Periods(app, q, s, events, c) && Waiting(q, issued0, s', c, d, k)
    decreases |events|
  {
    if events == [] {
      k := n;
    } else {
      var e := events[0];
      var m, next := if ChargesCore(s, e, c) then n + 1 else n, Next(app, q, s, e);
      InvAndWaitingStep(app, q, s0, issued0, s, c, d, n, e);
      k := WaitingRun(app, q, s0, issued0, next, events[1..], s', c, d, m);
    }
  }

  /** A throttled core that has acknowledged and generates no traffic is sent nothing before its
      ceil(d / A)-th period, and its resume in that period: by the time the firmware has got past
      the write in that period's slot, the next command issued to the core is a resume. */
  lemma ResumedOnTime<S(!new)>(
      app: App<S>, q: Regulator.Params, s0: State<S>, past: seq<Event>, s: State<S>, events: seq<Event>, s': State<S>,
      c: nat, d: nat)
    requires AvoidsWfi(app) && Initial(app, s0) && Run(app, q, s0, past) == Some(s)
    requires Run(app, q, s, events) == Some(s') && Roomy(q) && Throttled(s, c, d) && Quiet(app, q, s, events, c)
    ensures s'.Shape()
    ensures var n, due, sent := Periods(app, q, s, events, c), CeilDiv(d, Regulator.Budget(q)), |s.fw.issued[c]|;
            if n < due || (n == due && AboutToSend(PhaseAt(s'.fw, c))) then
              s'.fw.issued[c] == s.fw.issued[c]
            else
              |s'.fw.issued[c]| > sent && s'.fw.issued[c][sent] == CMD_RESUME
  {
    RunInv(app, q, s0, past, s);
    assert IsS32(s.fw.tokens[c]);
    WaitingStart(q, s, c, d);
    var n := WaitingRun(app, q, s0, s.fw.issued[c], s, events, s', c, d, 0);
    InvAlong(app, q, s0, s, events, s');
    assert CoreInv(app, s0.harts[c], s, c);
    assert |s.fw.issued[c]| % 2 == 1;
    assert CoreInv(app, s0.harts[c], s', c);
  }
}
