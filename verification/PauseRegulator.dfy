/** The buckets of the running system are the regulator's: what Regulator proves of a list of samples holds of
    every run, whatever the interleaving. */
module PauseRegulator {
  import opened Options
  import opened Machine32
  import opened PauseProtocol
  import opened PauseTheorems
  import Regulator

  /** The readings core c is charged for in a run, in order. */
  function Charged<S>(app: App<S>, q: Regulator.Params, s: State<S>, events: seq<Event>, c: nat)
    : (samples: seq<Regulator.Sample>)
    ensures |samples| == Periods(app, q, s, events, c)
    decreases |events|
  {
    if events == [] || !Enabled(s, events[0]) then []
    else
      (if ChargesCore(s, events[0], c) then [events[0].sample] else [])
      + Charged(app, q, Next(app, q, s, events[0]), events[1..], c)
  }

  /** The first period of a run may be taken on its own. */
  lemma {:induction false} Run32Cons(q: Regulator.Params, t: int, x: Regulator.Sample, rest: seq<Regulator.Sample>)
    ensures Regulator.Run32(q, t, [x] + rest) == Regulator.Run32(q, Regulator.Update32(q, t, x), rest)
    decreases |rest|
  {
    var all, n := [x] + rest, |rest|;
    if rest == [] {
      assert all[..n] == [];
    } else {
      assert all[..n] == [x] + rest[..n - 1] && all[n] == rest[n - 1];
      Run32Cons(q, t, x, rest[..n - 1]);
    }
  }

  lemma TokenStep<S>(app: App<S>, q: Regulator.Params, s: State<S>, e: Event, c: nat)
    requires Enabled(s, e) && c < NUM_CORES
    ensures Next(app, q, s, e).fw.tokens[c]
      == if ChargesCore(s, e, c) then Regulator.Update32(q, s.fw.tokens[c], e.sample) else s.fw.tokens[c]
  {
  }

  /** In every run a core's token is what the firmware's recurrence makes of the readings charged to it. */
  lemma {:induction false} TokenIsRun32<S>(app: App<S>, q: Regulator.Params, s: State<S>, events: seq<Event>,
                                           s': State<S>, c: nat, samples: seq<Regulator.Sample>)
    requires Run(app, q, s, events) == Some(s') && c < NUM_CORES && samples == Charged(app, q, s, events, c)
    ensures s.Shape() && s'.Shape()
    ensures s'.fw.tokens[c] == Regulator.Run32(q, s.fw.tokens[c], samples)
    decreases |events|
  {
    if events != [] {
      var e, next := events[0], Next(app, q, s, events[0]);
      var later := Charged(app, q, next, events[1..], c);
      TokenStep(app, q, s, e, c);
      TokenIsRun32(app, q, next, events[1..], s', c, later);
      RunsOn(q, s.fw.tokens[c], next.fw.tokens[c], s'.fw.tokens[c], ChargesCore(s, e, c), e, later, samples);
    }
  }

  lemma RunsOn(q: Regulator.Params, t: int, t1: int, t2: int, charged: bool, e: Event,
               later: seq<Regulator.Sample>, samples: seq<Regulator.Sample>)
    requires charged ==> e.FwCharge?
    requires t1 == (if charged then Regulator.Update32(q, t, e.sample) else t)
    requires samples == (if charged then [e.sample] else []) + later && t2 == Regulator.Run32(q, t1, later)
    ensures t2 == Regulator.Run32(q, t, samples)
  {
    if charged {
      Run32Cons(q, t, e.sample, later);
    } else {
      assert samples == later;
    }
  }

  /** The traffic charged to core c in a run. */
  function TrafficIn<S>(app: App<S>, q: Regulator.Params, s: State<S>, events: seq<Event>, c: nat): (vs: seq<int>)
    ensures |vs| == Periods(app, q, s, events, c)
  {
    Regulator.TrafficOf(q, Charged(app, q, s, events, c))
  }

  /** No uncapped token of core c leaves int32_t during the run. */
  ghost predicate InRange<S>(app: App<S>, q: Regulator.Params, s: State<S>, events: seq<Event>, c: nat)
    requires s.Shape() && c < NUM_CORES
  {
    Regulator.StaysInRange(s.fw.tokens[c], Regulator.Budget(q), Regulator.Cap(q), TrafficIn(app, q, s, events, c))
  }

  /** In range, it is what the exact regulator makes of the traffic. */
  lemma TokenIsExact<S>(app: App<S>, q: Regulator.Params, s: State<S>, events: seq<Event>, s': State<S>, c: nat)
    requires Run(app, q, s, events) == Some(s') && c < NUM_CORES && IsS32(Regulator.Cap(q))
    requires InRange(app, q, s, events, c)
    ensures s'.Shape()
    ensures s'.fw.tokens[c] == Regulator.Run(s.fw.tokens[c], Regulator.Budget(q), Regulator.Cap(q),
                                             TrafficIn(app, q, s, events, c))
  {
    TokenIsRun32(app, q, s, events, s', c, Charged(app, q, s, events, c));
    Regulator.FirmwareRunIsExact(q, s.fw.tokens[c], Charged(app, q, s, events, c));
  }

  /** In every window of every run, from any reachable state on, the traffic charged to a core is at most the
      window's budget, plus what its bucket held at the start (never more than the cap), less what it holds at the
      end. */
  lemma WindowOfRun<S(!new)>(app: App<S>, q: Regulator.Params, s0: State<S>, past: seq<Event>, s: State<S>,
                             events: seq<Event>, s': State<S>, c: nat)
    requires AvoidsWfi(app) && Initial(app, s0) && Run(app, q, s0, past) == Some(s)
    requires Run(app, q, s, events) == Some(s') && c < NUM_CORES && 0 <= Regulator.Cap(q) < TWO31
    requires InRange(app, q, s, events, c)
    ensures s.Shape() && s'.Shape() && s.fw.tokens[c] <= Regulator.Cap(q)
    ensures Regulator.Sum(TrafficIn(app, q, s, events, c))
      <= Periods(app, q, s, events, c) * Regulator.Budget(q) + s.fw.tokens[c] - s'.fw.tokens[c]
  {
    var vs, budget, cap := TrafficIn(app, q, s, events, c), Regulator.Budget(q), Regulator.Cap(q);
    Regulator.Cap32IsCap(q);
    TokenNeverAboveCap(app, q, s0, past, s, c);
    TokenIsExact(app, q, s, events, s', c);
    Regulator.WindowBound(s.fw.tokens[c], budget, cap, vs, 0, |vs|);
    assert vs[0..|vs|] == vs && vs[..0] == [] && vs[..|vs|] == vs;
  }
}
