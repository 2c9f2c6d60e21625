/** Commands do get acknowledged: how far a hart is from it, and that nothing but the hart itself has a say. */
module PauseProgress {
  import opened Options
  import opened PauseProtocol
  import opened PauseInvariant
  import Regulator

  /** How many more steps of its handler hart `h` takes, at most, to acknowledge the command in its word. */
  function Distance<S>(h: Hart<S>, word: bv32): (d: nat)
    ensures 1 <= d <= 9
  {
    match h.stage
    case GotWord => if h.counterVal == word then 4 else 9
    case Returning => 8
    case Running => 7
    case Entered => 6
    case Claimed => 5
    case PauseSaved => 3
    case PauseRedirected | ResumeRestored => 2
    case PauseFlagged | ResumeFlagged => 1
  }

  /** A step of hart c towards or inside its handler. */
  predicate OwnStep(e: Event, c: nat)
  {
    (e.Interrupt? || e.PlicClaim? || e.HandlerAccess?) && e.c == c
  }

  /** Not a claim by which hart c is told of some other interrupt. */
  predicate ClaimsOwn(e: Event, c: nat) { e.PlicClaim? && e.c == c ==> e.expected }

  predicate AllClaimsOwn(events: seq<Event>, c: nat)
  {
    forall k :: 0 <= k < |events| ==> ClaimsOwn(events[k], c)
  }

  function OwnSteps(events: seq<Event>, c: nat): nat
  {
    if events == [] then 0 else (if OwnStep(events[0], c) then 1 else 0) + OwnSteps(events[1..], c)
  }

  // ---- one event ----

  /** While a command is outstanding, a step of the hart's own brings the acknowledgement nearer. */
  lemma OwnStepNears<S>(app: App<S>, q: Regulator.Params, s0: State<S>, s: State<S>, e: Event, c: nat)
    requires Inv(app, q, s0, s) && Enabled(s, e) && c < NUM_CORES && OwnStep(e, c) && ClaimsOwn(e, c)
    requires !Acked(s.words[c])
    ensures var s' := Next(app, q, s, e);
      if s'.words[c] == s.words[c] then Distance(s'.harts[c], s.words[c]) < Distance(s.harts[c], s.words[c])
      else s'.words[c] == CVA_ACK_MASK && Distance(s.harts[c], s.words[c]) == 1
  {
    WordFacts();
    assert CoreInv(app, s0.harts[c], s, c);
    CommandWord(s.words[c], s.fw.issued[c], s.harts[c].acted);
  }

  lemma CommandWord(word: bv32, issued: seq<bv32>, acted: seq<bv32>)
    requires Alternates(issued) && WordInv(word, issued, acted) && !Acked(word)
    ensures word == CMD_PAUSE || word == CMD_RESUME
  {
    WordFacts();
    assert word == NthCommand(|acted|);
  }

  /** Everybody else leaves the command and the hart's progress alone. */
  lemma OthersLeaveIt<S>(app: App<S>, q: Regulator.Params, s0: State<S>, s: State<S>, e: Event, c: nat)
    requires Inv(app, q, s0, s) && Enabled(s, e) && c < NUM_CORES && !OwnStep(e, c) && !Acked(s.words[c])
    ensures var s' := Next(app, q, s, e);
      s'.words[c] == s.words[c] && Distance(s'.harts[c], s.words[c]) == Distance(s.harts[c], s.words[c])
  {
    WordFacts();
    if e.FwAccess? {
      var i := s.fw.idx;
      assert CoreInv(app, s0.harts[i], s, i);
      FirmwareStepInv(s.fw, s.words[i], s.harts[i].acted);
    }
  }

  // ---- runs ----

  /** After `k` of the events the word of core c held ACK. */
  ghost predicate AckedAfter<S(!new)>(app: App<S>, q: Regulator.Params, s: State<S>, events: seq<Event>, c: nat, k: nat)
  {
    k <= |events| && c < NUM_CORES &&
    var r := Run(app, q, s, events[..k]);
    r.Some? && r.value.Shape() && r.value.words[c] == CVA_ACK_MASK
  }

  lemma {:induction false} AckedWithin<S(!new)>(app: App<S>, q: Regulator.Params, s0: State<S>, s: State<S>,
                                                events: seq<Event>, s': State<S>, c: nat) returns (k: nat)
    requires AvoidsWfi(app) && Inv(app, q, s0, s) && Run(app, q, s, events) == Some(s') && c < NUM_CORES
    requires AllClaimsOwn(events, c)
    requires s.words[c] == CVA_ACK_MASK || OwnSteps(events, c) >= Distance(s.harts[c], s.words[c])
    ensures AckedAfter(app, q, s, events, c, k)
    decreases |events|
  {
    if s.words[c] == CVA_ACK_MASK {
      k := 0;
    } else {
      var e, rest, next := events[0], events[1..], Next(app, q, s, events[0]);
      assert ClaimsOwn(e, c);
      StillOutstanding(app, q, s0, s, c);
      if OwnStep(e, c) {
        OwnStepNears(app, q, s0, s, e, c);
      } else {
        OthersLeaveIt(app, q, s0, s, e, c);
      }
      StepInv(app, q, s0, s, e);
      assert forall j :: 0 <= j < |rest| ==> rest[j] == events[j + 1];
      k := AckedWithin(app, q, s0, next, rest, s', c);
      OneLater(app, q, s, events, c, k);
      k := k + 1;
    }
  }

  lemma StillOutstanding<S>(app: App<S>, q: Regulator.Params, s0: State<S>, s: State<S>, c: nat)
    requires Inv(app, q, s0, s) && c < NUM_CORES && s.words[c] != CVA_ACK_MASK
    ensures !Acked(s.words[c])
  {
    WordFacts();
    assert CoreInv(app, s0.harts[c], s, c);
    assert s.words[c] == NthCommand(|s.harts[c].acted|);
  }

  lemma OneLater<S(!new)>(app: App<S>, q: Regulator.Params, s: State<S>, events: seq<Event>, c: nat, k: nat)
    requires s.Shape() && events != [] && Enabled(s, events[0])
    requires AckedAfter(app, q, Next(app, q, s, events[0]), events[1..], c, k)
    ensures AckedAfter(app, q, s, events, c, k + 1)
  {
    assert events[..k + 1] == [events[0]] + events[1..][..k];
    RunUnfold(app, q, s, events[0], events[1..][..k]);
  }

  /** From every reachable state on: once the hart has taken nine steps towards or inside its handler that
      answer the firmware's interrupt, its word has held ACK, whatever all the others did meanwhile. */
  lemma EveryCommandIsAnswered<S(!new)>(app: App<S>, q: Regulator.Params, s0: State<S>, past: seq<Event>, s: State<S>,
                                        events: seq<Event>, s': State<S>, c: nat) returns (k: nat)
    requires AvoidsWfi(app) && Initial(app, s0) && Run(app, q, s0, past) == Some(s)
    requires Run(app, q, s, events) == Some(s') && c < NUM_CORES && AllClaimsOwn(events, c) && OwnSteps(events, c) >= 9
    ensures AckedAfter(app, q, s, events, c, k)
  {
    RunInv(app, q, s0, past, s);
    k := AckedWithin(app, q, s0, s, events, s', c);
  }

  // ---- the hart can always go on ----

  /** The step that hart h can take next towards or inside its handler. */
  function NextOwn<S>(h: Hart<S>, c: nat): Event
  {
    if h.stage == Running then Interrupt(c)
    else if h.stage == Entered then PlicClaim(c, true)
    else HandlerAccess(c)
  }

  /** From every reachable state the hart alone can bring its word to ACK, in at most nine steps. */
  lemma {:induction false} CanAnswer<S(!new)>(app: App<S>, q: Regulator.Params, s0: State<S>, s: State<S>, c: nat)
    returns (events: seq<Event>, s': State<S>)
    requires AvoidsWfi(app) && Inv(app, q, s0, s) && c < NUM_CORES
    ensures Run(app, q, s, events) == Some(s') && s'.Shape() && s'.words[c] == CVA_ACK_MASK
    ensures |events| <= if s.words[c] == CVA_ACK_MASK then 0 else Distance(s.harts[c], s.words[c])
    ensures forall k :: 0 <= k < |events| ==> OwnStep(events[k], c) && ClaimsOwn(events[k], c)
    decreases if s.words[c] == CVA_ACK_MASK then 0 else Distance(s.harts[c], s.words[c])
  {
    if s.words[c] == CVA_ACK_MASK {
      events, s' := [], s;
    } else {
      var e := NextOwn(s.harts[c], c);
      StillOutstanding(app, q, s0, s, c);
      OwnStepNears(app, q, s0, s, e, c);
      StepInv(app, q, s0, s, e);
      var rest;
      rest, s' := CanAnswer(app, q, s0, Next(app, q, s, e), c);
      events := [e] + rest;
      RunUnfold(app, q, s, e, rest);
    }
  }

  lemma ReachableCanAnswer<S(!new)>(app: App<S>, q: Regulator.Params, s0: State<S>, past: seq<Event>, s: State<S>,
                                    c: nat)
    returns (events: seq<Event>, s': State<S>)
    requires AvoidsWfi(app) && Initial(app, s0) && Run(app, q, s0, past) == Some(s) && c < NUM_CORES
    ensures Run(app, q, s, events) == Some(s') && s'.Shape() && s'.words[c] == CVA_ACK_MASK && |events| <= 9
    ensures forall k :: 0 <= k < |events| ==> OwnStep(events[k], c) && ClaimsOwn(events[k], c)
  {
    RunInv(app, q, s0, past, s);
    events, s' := CanAnswer(app, q, s0, s, c);
  }
}
