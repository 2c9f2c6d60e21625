/** The token-bucket regulator of the memory-policing firmware, once as the firmware computes
    it (mixed signed and unsigned 32-bit arithmetic) and once over exact integers. */
module Regulator {
  import opened Machine32

  /** The firmware's configurable globals: `b` is int32_t, the others are uint32_t. */
  datatype Params = Params(b: int, p: nat, pollPeriod: nat, w: nat,
                           aLLCr: nat, aLLCw: nat, aMEMr: nat, aMEMw: nat)

  /** One reading of a core's four traffic counters, overflow bit masked off. */
  datatype Sample = Sample(llcRd: nat, llcWr: nat, memRd: nat, memWr: nat)

  const DEFAULTS := Params(86, 2000, 2000, 2, 10000, 0, 6120, 4400)

  // ---- the firmware's arithmetic ----

  function V32(q: Params, s: Sample): (v: int)
    ensures IsS32(v)
  {
    S32(U32(U32(U32(U32(q.aLLCr * s.llcRd) + U32(q.aLLCw * s.llcWr)) + U32(q.aMEMr * s.memRd))
            + U32(q.aMEMw * s.memWr)))
  }

  function Cap32(q: Params): (cap: int)
    ensures IsS32(cap)
  {
    S32(U32(U32(q.w * q.pollPeriod) * U32(q.b)))
  }

  /** token += (B * P) - V, before the cap. */
  function Charge32(q: Params, token: int, s: Sample): (t: int)
    ensures IsS32(t)
  {
    S32(U32(U32(token) + U32(U32(U32(q.b) * q.p) - U32(V32(q, s)))))
  }

  function Update32(q: Params, token: int, s: Sample): (t: int)
    ensures IsS32(t) && t <= Cap32(q)
  {
    var charged := Charge32(q, token, s);
    if charged > Cap32(q) then Cap32(q) else charged
  }

  // ---- the regulator it is meant to be ----

  function Budget(q: Params): int { q.b * q.p }

  function Cap(q: Params): int { q.w * q.pollPeriod * q.b }

  function Traffic(q: Params, s: Sample): int
  {
    q.aLLCr * s.llcRd + q.aLLCw * s.llcWr + q.aMEMr * s.memRd + q.aMEMw * s.memWr
  }

  function Update(token: int, budget: int, traffic: int, cap: int): int
  {
    Min(token + budget - traffic, cap)
  }

  // ---- one step: when the two agree ----

  lemma V32IsTraffic(q: Params, s: Sample)
    ensures Congruent(V32(q, s), Traffic(q, s))
  {
    var (a, b, c, d) := (q.aLLCr * s.llcRd, q.aLLCw * s.llcWr, q.aMEMr * s.memRd, q.aMEMw * s.memWr);
    WordsOf4(a, b, c, d);
  }

  lemma WordsOf4(a: int, b: int, c: int, d: int)
    ensures Congruent(S32(U32(U32(U32(U32(a) + U32(b)) + U32(c)) + U32(d))), a + b + c + d)
  {
    WordOf(a);
    AddWord(U32(a), a, b);
    AddWord(U32(U32(a) + U32(b)), a + b, c);
    AddWord(U32(U32(U32(a) + U32(b)) + U32(c)), a + b + c, d);
    var w := U32(U32(U32(U32(a) + U32(b)) + U32(c)) + U32(d));
    WordOf(w);
    Congruences(S32(w), w, a + b + c + d, a + b + c + d);
  }

  lemma AddWord(w: int, x: int, y: int)
    requires Congruent(w, x)
    ensures Congruent(U32(w + U32(y)), x + y)
  {
    WordOf(y);
    CongruentSum(w, x, U32(y), y);
    WordOf(w + U32(y));
    Congruences(U32(w + U32(y)), w + U32(y), x + y, x + y);
  }

  lemma Cap32IsCap(q: Params)
    ensures Congruent(Cap32(q), Cap(q))
    ensures IsS32(Cap(q)) ==> Cap32(q) == Cap(q)
  {
    WordProduct(q.w * q.pollPeriod, q.b);
  }

  /** V may wrap on its own; the charged token only depends on the exact total. */
  lemma Charge32IsCharge(q: Params, token: int, s: Sample)
    ensures Charge32(q, token, s) == S32(token + Budget(q) - Traffic(q, s))
  {
    V32IsTraffic(q, s);
    WordOf(q.b);
    CongruentProduct(U32(q.b), q.b, q.p);
    ChargeWords(token, U32(q.b) * q.p, Budget(q), V32(q, s), Traffic(q, s));
  }

  lemma ChargeWords(token: int, a: int, a': int, v: int, v': int)
    requires Congruent(a, a') && Congruent(v, v')
    ensures S32(U32(U32(token) + U32(U32(a) - U32(v)))) == S32(token + a' - v')
  {
    var inner := U32(U32(a) - U32(v));
    InnerWord(a, a', v, v');
    WordOf(token);
    CongruentSum(U32(token), token, inner, a' - v');
    var outer := U32(token) + inner;
    WordOf(outer);
    Congruences(U32(outer), outer, token + (a' - v'), token + a' - v');
    SameWord(U32(outer), token + a' - v');
  }

  lemma InnerWord(a: int, a': int, v: int, v': int)
    requires Congruent(a, a') && Congruent(v, v')
    ensures Congruent(U32(U32(a) - U32(v)), a' - v')
  {
    var inner := U32(a) - U32(v);
    WordOf(a);
    WordOf(v);
    WordOf(inner);
    CongruentSum(U32(a), a, U32(v), v);
    CongruentSum(a, a', v, v');
    Congruences(U32(inner), inner, a - v, a' - v');
  }

  lemma Congruences(w: int, x: int, y: int, z: int)
    requires Congruent(w, x) && Congruent(x, y) && Congruent(y, z)
    ensures Congruent(w, z)
  {
  }

  /** The firmware's step equals the exact step exactly when the uncapped token fits in int32_t,
      or lies above the type and happens to wrap to something the cap still cuts off. */
  lemma UpdateAgreement(q: Params, token: int, s: Sample)
    requires IsS32(Cap(q))
    ensures var x := token + Budget(q) - Traffic(q, s);
            Update32(q, token, s) == Update(token, Budget(q), Traffic(q, s), Cap(q))
            <==> IsS32(x) || (x >= TWO31 && S32(x) >= Cap(q))
  {
    var x := token + Budget(q) - Traffic(q, s);
    Charge32IsCharge(q, token, s);
    Cap32IsCap(q);
    S32Identity(x);
  }

  /** So one period, in numbers: the budget, the four readings with their weights, the cap. */
  lemma UpdateIs(q: Params, token: int, s: Sample)
    requires IsS32(q.w * q.pollPeriod * q.b)
    ensures var x := token + q.b * q.p
                     - (q.aLLCr * s.llcRd + q.aLLCw * s.llcWr + q.aMEMr * s.memRd + q.aMEMw * s.memWr);
      IsS32(x) ==> Update32(q, token, s) == Min(x, q.w * q.pollPeriod * q.b)
  {
    UpdateAgreement(q, token, s);
  }

  /** With the default parameters. */
  lemma DefaultPeriod(token: int, llcRd: nat, llcWr: nat, memRd: nat, memWr: nat)
    ensures var x := token + 172_000 - (10_000 * llcRd + 6_120 * memRd + 4_400 * memWr);
      IsS32(x) ==> Update32(DEFAULTS, token, Sample(llcRd, llcWr, memRd, memWr)) == Min(x, 344_000)
  {
    var q, s := DEFAULTS, Sample(llcRd, llcWr, memRd, memWr);
    assert q.w * q.pollPeriod * q.b == 344_000 && q.b * q.p == 172_000;
    assert q.aLLCw * s.llcWr == 0;
    UpdateIs(q, token, s);
  }

  // ---- runs ----

  function Run32(q: Params, t0: int, samples: seq<Sample>): int
  {
    if samples == [] then t0
    else Update32(q, Run32(q, t0, samples[..|samples| - 1]), samples[|samples| - 1])
  }

  function Run(t0: int, budget: int, cap: int, traffic: seq<int>): int
  {
    if traffic == [] then t0
    else Update(Run(t0, budget, cap, traffic[..|traffic| - 1]), budget, traffic[|traffic| - 1], cap)
  }

  function TrafficOf(q: Params, samples: seq<Sample>): (vs: seq<int>)
    ensures |vs| == |samples|
    ensures forall i :: 0 <= i < |vs| ==> vs[i] == Traffic(q, samples[i])
  {
    seq(|samples|, i requires 0 <= i < |samples| => Traffic(q, samples[i]))
  }

  /** Every uncapped token of the exact run fits in int32_t. */
  ghost predicate StaysInRange(t0: int, budget: int, cap: int, traffic: seq<int>)
  {
    forall k :: 0 <= k < |traffic| ==> UncappedFits(t0, budget, cap, traffic, k)
  }

  predicate UncappedFits(t0: int, budget: int, cap: int, traffic: seq<int>, k: nat)
    requires k < |traffic|
  {
    IsS32(Run(t0, budget, cap, traffic[..k]) + budget - traffic[k])
  }

  lemma PrefixInRange(t0: int, budget: int, cap: int, traffic: seq<int>, n: nat)
    requires n <= |traffic| && StaysInRange(t0, budget, cap, traffic)
    ensures StaysInRange(t0, budget, cap, traffic[..n])
  {
    forall k | 0 <= k < n ensures UncappedFits(t0, budget, cap, traffic[..n], k) {
      assert traffic[..n][..k] == traffic[..k];
      assert UncappedFits(t0, budget, cap, traffic, k);
    }
  }

  lemma TrafficPrefix(q: Params, samples: seq<Sample>, n: nat)
    requires n <= |samples|
    ensures TrafficOf(q, samples)[..n] == TrafficOf(q, samples[..n])
  {
  }

  /** In range, a firmware run is the exact run. */
  lemma {:induction false} FirmwareRunIsExact(q: Params, t0: int, samples: seq<Sample>)
    requires IsS32(Cap(q)) && StaysInRange(t0, Budget(q), Cap(q), TrafficOf(q, samples))
    ensures Run32(q, t0, samples) == Run(t0, Budget(q), Cap(q), TrafficOf(q, samples))
  {
    if samples != [] {
      var (n, budget, cap, vs) := (|samples| - 1, Budget(q), Cap(q), TrafficOf(q, samples));
      TrafficPrefix(q, samples, n);
      PrefixInRange(t0, budget, cap, vs, n);
      FirmwareRunIsExact(q, t0, samples[..n]);
      assert UncappedFits(t0, budget, cap, vs, n);
      UpdateAgreement(q, Run32(q, t0, samples[..n]), samples[n]);
    }
  }

  /** The two runs agree after k periods. */
  predicate AgreeAt(q: Params, t0: int, samples: seq<Sample>, k: nat)
    requires k <= |samples|
  {
    Run32(q, t0, samples[..k]) == Run(t0, Budget(q), Cap(q), TrafficOf(q, samples)[..k])
  }

  /** With room for one budget above the cap, the firmware's run agrees with the exact one at every
      period exactly when no uncapped token falls out of int32_t. */
  lemma {:induction false} AgreementIsRange(q: Params, t0: int, samples: seq<Sample>)
    requires IsS32(Cap(q)) && t0 <= Cap(q) && Cap(q) + Budget(q) < TWO31
    requires forall k :: 0 <= k < |samples| ==> Traffic(q, samples[k]) >= 0
    ensures StaysInRange(t0, Budget(q), Cap(q), TrafficOf(q, samples))
            <==> forall k :: 0 <= k <= |samples| ==> AgreeAt(q, t0, samples, k)
  {
    var (budget, cap, vs) := (Budget(q), Cap(q), TrafficOf(q, samples));
    if StaysInRange(t0, budget, cap, vs) {
      forall k | 0 <= k <= |samples| ensures AgreeAt(q, t0, samples, k) {
        TrafficPrefix(q, samples, k);
        PrefixInRange(t0, budget, cap, vs, k);
        FirmwareRunIsExact(q, t0, samples[..k]);
      }
    } else {
      var k :| 0 <= k < |vs| && !UncappedFits(t0, budget, cap, vs, k);
      if AgreeAt(q, t0, samples, k) {
        Diverges(q, t0, samples, k);
      }
    }
  }

  lemma Diverges(q: Params, t0: int, samples: seq<Sample>, k: nat)
    requires IsS32(Cap(q)) && t0 <= Cap(q) && Cap(q) + Budget(q) < TWO31
    requires k < |samples| && Traffic(q, samples[k]) >= 0
    requires AgreeAt(q, t0, samples, k) && !UncappedFits(t0, Budget(q), Cap(q), TrafficOf(q, samples), k)
    ensures !AgreeAt(q, t0, samples, k + 1)
  {
    var (budget, cap, vs) := (Budget(q), Cap(q), TrafficOf(q, samples));
    assert samples[..k + 1][..k] == samples[..k] && vs[..k + 1][..k] == vs[..k];
    RunBelowCap(t0, budget, cap, vs[..k]);
    UpdateAgreement(q, Run32(q, t0, samples[..k]), samples[k]);
  }

  // ---- the min-plus closed form ----

  /** Budget earned minus traffic charged over periods [i, |vs|). */
  function Net(budget: int, vs: seq<int>, i: nat): int
    requires i <= |vs|
    decreases |vs| - i
  {
    if i == |vs| then 0 else budget - vs[i] + Net(budget, vs, i + 1)
  }

  lemma {:induction false} NetSnoc(budget: int, vs: seq<int>, v: int, i: nat)
    requires i <= |vs|
    ensures Net(budget, vs + [v], i) == Net(budget, vs, i) + budget - v
    decreases |vs| - i
  {
    if i == |vs| {
      assert Net(budget, vs + [v], i + 1) == 0;
    } else {
      NetSnoc(budget, vs, v, i + 1);
    }
  }

  /** The candidate that starts afresh at the cap after period k (k >= 1), or at t0 (k == 0). */
  function Candidate(t0: int, budget: int, cap: int, vs: seq<int>, k: nat): int
    requires k <= |vs|
  {
    (if k == 0 then t0 else cap) + Net(budget, vs, k)
  }

  /** The token after a run is the least candidate over all suffixes of the run. */
  lemma {:induction false} MinPlus(t0: int, budget: int, cap: int, vs: seq<int>)
    ensures forall k :: 0 <= k <= |vs| ==> Run(t0, budget, cap, vs) <= Candidate(t0, budget, cap, vs, k)
    ensures exists k :: 0 <= k <= |vs| && Run(t0, budget, cap, vs) == Candidate(t0, budget, cap, vs, k)
  {
    if vs == [] {
      assert Run(t0, budget, cap, vs) == Candidate(t0, budget, cap, vs, 0);
    } else {
      var n := |vs| - 1;
      var front, v := vs[..n], vs[n];
      assert vs == front + [v];
      MinPlus(t0, budget, cap, front);
      forall k | 0 <= k <= n
        ensures Candidate(t0, budget, cap, vs, k) == Candidate(t0, budget, cap, front, k) + budget - v
      {
        NetSnoc(budget, front, v, k);
      }
      assert Candidate(t0, budget, cap, vs, n + 1) == cap;
      var k :| 0 <= k <= n && Run(t0, budget, cap, front) == Candidate(t0, budget, cap, front, k);
      var chosen := if Run(t0, budget, cap, front) + budget - v <= cap then k else n + 1;
      assert Run(t0, budget, cap, vs) == Candidate(t0, budget, cap, vs, chosen);
    }
  }

  function Sum(vs: seq<int>): int
  {
    if vs == [] then 0 else Sum(vs[..|vs| - 1]) + vs[|vs| - 1]
  }

  /** In every window of periods [i, j) the charged traffic is bounded by the budget of the window,
      plus what the bucket held when it opened, minus what it holds when it closes. */
  lemma {:induction false} WindowBound(t0: int, budget: int, cap: int, vs: seq<int>, i: nat, j: nat)
    requires t0 <= cap && i <= j <= |vs|
    ensures Sum(vs[i..j]) <= (j - i) * budget + Run(t0, budget, cap, vs[..i]) - Run(t0, budget, cap, vs[..j])
    ensures Sum(vs[i..j]) <= (j - i) * budget + cap - Run(t0, budget, cap, vs[..j])
    decreases j
  {
    if i < j {
      WindowBound(t0, budget, cap, vs, i, j - 1);
      assert vs[i..j][..j - i - 1] == vs[i..j - 1];
      assert vs[..j][..j - 1] == vs[..j - 1];
      var (before, after) := (Run(t0, budget, cap, vs[..j - 1]), Run(t0, budget, cap, vs[..j]));
      assert after <= before + budget - vs[j - 1];
      OneMoreBudget(j - 1 - i, budget);
    } else {
      assert (j - i) * budget == 0;
    }
    RunBelowCap(t0, budget, cap, vs[..i]);
  }

  lemma OneMoreBudget(n: nat, budget: int)
    ensures (n + 1) * budget == n * budget + budget
  {
  }

  lemma RunBelowCap(t0: int, budget: int, cap: int, vs: seq<int>)
    requires t0 <= cap
    ensures Run(t0, budget, cap, vs) <= cap
  {
  }

  /** With the window empty of traffic the bucket refills along a straight line up to the cap. */
  lemma {:induction false} Refill(t0: int, budget: int, cap: int, n: nat)
    requires t0 <= cap && budget >= 0
    ensures Run(t0, budget, cap, seq(n, _ => 0)) == Min(t0 + n * budget, cap)
  {
    if n > 0 {
      assert seq(n, _ => 0)[..n - 1] == seq(n - 1, _ => 0);
      Refill(t0, budget, cap, n - 1);
    }
  }
}
