/** What the firmware owes each core: one charge in every iteration, and in that slot exactly the command that its
    token and its throttled flag call for. */
module PauseDuty {
  import opened Options
  import opened PauseProtocol
  import opened PauseInvariant
  import opened PauseTheorems
  import opened PauseRegulator
  import opened MempolFirmware
  import Regulator

  // ---- one slot ----

  /** A slot that finds bit 20 of the word set writes the pause command exactly when the token is negative and the
      core is not throttled, the resume command exactly when it is not negative and the core is throttled, and
      otherwise nothing; a slot that finds the bit clear writes nothing. */
  lemma SlotWrites(fw: Firmware, word: bv32)
    requires fw.Shape() && fw.phase.Checking?
    ensures var c := fw.idx;
      var (fw', word') := Drive(fw, word);
      if word & 0x0010_0000 != 0 && fw.tokens[c] < 0 && fw.throttled[c] == 0 then
        word' == 0x4000_0000 && fw'.issued[c] == fw.issued[c] + [0x4000_0000] && fw'.throttled[c] == 1
        && fw'.irqSent[c] == (fw.irqSent[c] + 1) % 0x1_0000_0000
        && fw'.decision == if c == 0 then 1 else fw.decision
      else if word & 0x0010_0000 != 0 && fw.tokens[c] >= 0 && fw.throttled[c] != 0 then
        word' == 0x4100_0000 && fw'.issued[c] == fw.issued[c] + [0x4100_0000] && fw'.throttled[c] == 0
        && fw'.irqSent[c] == (fw.irqSent[c] + 1) % 0x1_0000_0000
        && fw'.decision == if c == 0 then 2 else fw.decision
      else
        word' == word && fw'.issued == fw.issued && fw'.throttled == fw.throttled && fw'.irqSent == fw.irqSent
        && fw'.decision == fw.decision
  {
    DrivePolices(fw, word);
    OneBit(word);
  }

  // ---- every core, every iteration ----

  /** How often core c has been charged by the time of a state. */
  function ChargesBy(fw: Firmware, c: nat): nat
  {
    |fw.decisions| + (if fw.idx > c || (fw.idx == c && !fw.phase.Charging?) then 1 else 0)
  }

  lemma ChargeCounts<S>(app: App<S>, q: Regulator.Params, s: State<S>, e: Event, c: nat)
    requires Enabled(s, e) && c < NUM_CORES
    ensures ChargesBy(Next(app, q, s, e).fw, c) == ChargesBy(s.fw, c) + (if ChargesCore(s, e, c) then 1 else 0)
  {
  }

  lemma {:induction false} ChargesAlong<S>(app: App<S>, q: Regulator.Params, s: State<S>, events: seq<Event>,
                                           s': State<S>, c: nat)
    requires Run(app, q, s, events) == Some(s') && c < NUM_CORES
    ensures ChargesBy(s'.fw, c) == ChargesBy(s.fw, c) + Periods(app, q, s, events, c)
    decreases |events|
  {
    if events != [] {
      ChargeCounts(app, q, s, events[0], c);
      ChargesAlong(app, q, Next(app, q, s, events[0]), events[1..], s', c);
    }
  }

  /** At the end of every iteration each core has been charged exactly as often as there have been iterations. */
  lemma EveryCoreEveryPeriod<S>(app: App<S>, q: Regulator.Params, s0: State<S>, events: seq<Event>, s: State<S>, c: nat)
    requires Initial(app, s0) && Run(app, q, s0, events) == Some(s) && c < NUM_CORES
    requires s.fw.idx == 0 && s.fw.phase.Charging?
    ensures Periods(app, q, s0, events, c) == |s.fw.decisions|
  {
    ChargesAlong(app, q, s0, events, s, c);
  }

  // ---- the command that is due ----

  /** The command that a token and a throttled flag call for. */
  function Due(token: int, throttled: nat): seq<bv32>
  {
    if token < 0 && throttled == 0 then [0x4000_0000]
    else if token >= 0 && throttled != 0 then [0x4100_0000]
    else []
  }

  /** What has become of it after `n` charges, the first of which left the token at `t`: nothing is sent before; in
      the slot of the first the firmware is about to write it, or is past that. */
  ghost predicate Served(phase: Phase, word: bv32, token: int, throttled: nat, issued0: seq<bv32>, issued: seq<bv32>,
                         flag: nat, t: int, n: nat)
  {
    var due := Due(t, flag);
    var waiting := issued == issued0 && throttled == flag && word == 0x0010_0000;
    if n == 0 then waiting && phase.Charging?
    else if n == 1 && (due == [] || AboutToSend(phase)) then
      waiting && (phase.Checking? || phase.Deciding? ==> token == t) && !MidSend(phase)
      && (phase.WritingCommand? ==> due == [phase.cmd])
    else due == [] || issued0 + due <= issued
  }

  lemma ServedAccess(fw: Firmware, word: bv32, issued0: seq<bv32>, flag: nat, t: int, n: nat)
    requires fw.Shape() && !fw.phase.Charging? && n > 0
    requires var c := fw.idx;
      Served(fw.phase, word, fw.tokens[c], fw.throttled[c], issued0, fw.issued[c], flag, t, n)
    ensures var c, r := fw.idx, FirmwareStep(fw, word);
      var word' := if r.1 == [] then word else r.1[0];
      Served(PhaseAt(r.0, c), word', r.0.tokens[c], r.0.throttled[c], issued0, r.0.issued[c], flag, t, n)
  {
    WordFacts();
  }

  /** Core c's part in the state. */
  ghost predicate ServedAt<S>(s: State<S>, c: nat, issued0: seq<bv32>, flag: nat, t: int, n: nat)
    requires s.Shape() && c < NUM_CORES
  {
    Served(PhaseAt(s.fw, c), s.words[c], s.fw.tokens[c], s.fw.throttled[c], issued0, s.fw.issued[c], flag, t, n)
  }

  /** The charge of core c, if the event is one, is the first, or leaves the token at `t`. */
  predicate FirstLeaves<S>(q: Regulator.Params, s: State<S>, e: Event, c: nat, t: int, n: nat)
    requires Enabled(s, e) && c < NUM_CORES
  {
    ChargesCore(s, e, c) && n == 0 ==> Regulator.Update32(q, s.fw.tokens[c], e.sample) == t
  }

  lemma ServedStep<S(!new)>(app: App<S>, q: Regulator.Params, s0: State<S>, s: State<S>, e: Event, c: nat,
                            issued0: seq<bv32>, flag: nat, t: int, n: nat)
    requires Inv(app, q, s0, s) && Enabled(s, e) && c < NUM_CORES && ServedAt(s, c, issued0, flag, t, n)
    requires FirstLeaves(q, s, e, c, t, n)
    ensures ServedAt(Next(app, q, s, e), c, issued0, flag, t, if ChargesCore(s, e, c) then n + 1 else n)
  {
    match e {
      case FwCharge(sample) =>
      case FwAccess =>
        if s.fw.idx == c {
          ServedAccess(s.fw, s.words[c], issued0, flag, t, n);
        } else {
          WaitingElsewhere(app, q, s, c);
        }
      case HandlerAccess(i) =>
        assert CoreInv(app, s0.harts[i], s, i);
        HandlerStepInv(app, s0.harts[i], s.words[i], s.fw.issued[i], s.harts[i]);
        WordFacts();
      case _ =>
    }
  }

  lemma {:induction false} ServedRun<S(!new)>(app: App<S>, q: Regulator.Params, s0: State<S>, s: State<S>,
      events: seq<Event>, s': State<S>, c: nat, issued0: seq<bv32>, flag: nat, t: int, n: nat, k: nat)
    requires AvoidsWfi(app) && Inv(app, q, s0, s) && Run(app, q, s, events) == Some(s') && c < NUM_CORES
    requires ServedAt(s, c, issued0, flag, t, n) && k == n + Periods(app, q, s, events, c)
    requires n == 0 && Periods(app, q, s, events, c) > 0 ==>
      t == Regulator.Update32(q, s.fw.tokens[c], Charged(app, q, s, events, c)[0])
    ensures s'.Shape() && ServedAt(s', c, issued0, flag, t, k)
    decreases |events|
  {
    if events != [] {
      var e, next := events[0], Next(app, q, s, events[0]);
      TokenStep(app, q, s, e, c);
      StepInv(app, q, s0, s, e);
      ServedStep(app, q, s0, s, e, c, issued0, flag, t, n);
      ServedRun(app, q, s0, next, events[1..], s', c, issued0, flag, t, if ChargesCore(s, e, c) then n + 1 else n, k);
    }
  }

  /** From every reachable state in which the firmware is about to charge a core that has acknowledged: nothing is
      sent to it before the charge; once the firmware is past the write in that slot, the next command is a pause
      if the charged token is negative and the core was not throttled, a resume if it is not negative and the core
      was throttled; and otherwise nothing is sent before the next charge. */
  lemma ServedInItsSlot<S(!new)>(
      app: App<S>, q: Regulator.Params, s0: State<S>, past: seq<Event>, s: State<S>, events: seq<Event>, s': State<S>,
      c: nat)
    requires AvoidsWfi(app) && Initial(app, s0) && Run(app, q, s0, past) == Some(s)
    requires Run(app, q, s, events) == Some(s') && c < NUM_CORES
    requires s.fw.idx == c && s.fw.phase.Charging? && s.words[c] == 0x0010_0000
    ensures s'.Shape()
    ensures var n, flag, sent := Periods(app, q, s, events, c), s.fw.throttled[c], |s.fw.issued[c]|;
      if n == 0 then s'.fw.issued[c] == s.fw.issued[c]
      else
        var t := Regulator.Update32(q, s.fw.tokens[c], Charged(app, q, s, events, c)[0]);
        if n == 1 && AboutToSend(PhaseAt(s'.fw, c)) then s'.fw.issued[c] == s.fw.issued[c]
        else if t < 0 && flag == 0 then |s'.fw.issued[c]| > sent && s'.fw.issued[c][sent] == 0x4000_0000
        else if t >= 0 && flag != 0 then |s'.fw.issued[c]| > sent && s'.fw.issued[c][sent] == 0x4100_0000
        else n == 1 ==> s'.fw.issued[c] == s.fw.issued[c]
  {
    RunInv(app, q, s0, past, s);
    var n, issued0, flag := Periods(app, q, s, events, c), s.fw.issued[c], s.fw.throttled[c];
    var t := if n == 0 then 0 else Regulator.Update32(q, s.fw.tokens[c], Charged(app, q, s, events, c)[0]);
    ServedRun(app, q, s0, s, events, s', c, issued0, flag, t, 0, n);
  }

  // ---- no command without cause ----

  /** Between deciding and writing, the command still is what token and flag call for. */
  predicate Justified(fw: Firmware)
    requires fw.Shape()
  {
    fw.phase.WritingCommand? ==> Due(fw.tokens[fw.idx], fw.throttled[fw.idx]) == [fw.phase.cmd]
  }

  lemma {:induction false} JustifiedAlong<S>(app: App<S>, q: Regulator.Params, s: State<S>, events: seq<Event>,
                                             s': State<S>)
    requires Run(app, q, s, events) == Some(s') && Justified(s.fw)
    ensures s'.Shape() && Justified(s'.fw)
    decreases |events|
  {
    if events != [] {
      JustifiedAlong(app, q, Next(app, q, s, events[0]), events[1..], s');
    }
  }

  /** In no reachable state does an event issue a pause to a core whose token is not negative, or that is throttled,
      nor a resume to one whose token is negative, or that is not throttled, nor anything else. */
  lemma NothingUndue<S(!new)>(app: App<S>, q: Regulator.Params, s0: State<S>, past: seq<Event>, s: State<S>, e: Event,
                              c: nat)
    requires Initial(app, s0) && Run(app, q, s0, past) == Some(s) && Enabled(s, e) && c < NUM_CORES
    ensures var before, after := s.fw.issued[c], Next(app, q, s, e).fw.issued[c];
      after == before
      || (after == before + [0x4000_0000] && s.fw.tokens[c] < 0 && s.fw.throttled[c] == 0)
      || (after == before + [0x4100_0000] && s.fw.tokens[c] >= 0 && s.fw.throttled[c] != 0)
  {
    JustifiedAlong(app, q, s0, past, s);
  }
}
