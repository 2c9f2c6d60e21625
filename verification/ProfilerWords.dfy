/** The profiling log word by word, after any run with at most one event between entry reads. */
module ProfilerWords {
  import opened Profiler

  /** What the register of metric `j` shows of a true count: 32 bits of cycles, 31 of anything else. */
  function Register(j: nat, x: nat): int { if j == 0 then x % 0x1_0000_0000 else x % 0x8000_0000 }

  /** Turn `p` is the first whose entry read counts more than `e` events. */
  ghost predicate FirstSeesEntry(ts: seq<Turn>, e: nat, p: nat)
  {
    p < |ts| && ts[p].n0 > e && forall r :: 0 <= r < p ==> ts[r].n0 <= e
  }

  ghost predicate FirstSeesExit(ts: seq<Turn>, e: nat, q: nat)
  {
    q < |ts| && ts[q].n1 > e && forall r :: 0 <= r < q ==> ts[r].n1 <= e
  }

  lemma TurnsAre(ts: seq<Turn>, k: nat, p: nat, q: nat)
    requires FirstSeesEntry(ts, 2 * k, p) && FirstSeesExit(ts, 2 * k + 1, q)
    ensures EntryTurn(ts, k) == p && ExitTurn(ts, k) == q
  {
    SeenFirstIs(ts, 2 * k, 0, p);
    SeenLastIs(ts, 2 * k + 1, 0, q);
  }

  lemma NineWords(log: Log, w: nat, s: Sample, j: nat)
    requires j < 9 && w + 9 <= 9032 && Nine(log, w) == s
    ensures log[w + j] == s[j]
  {
    assert log[w + j] == log[w..w + 9][j];
  }

  /** The nine words of record `k` are the differences of the registers between the turn that first saw the call's
      entry, event 2k, and the turn that first saw its exit, event 2k + 1. */
  lemma RecordWords(ts: seq<Turn>, log: Log, k: nat, p: nat, q: nat, j: nat)
    requires Paced(ts) && FirstSeesEntry(ts, 2 * k, p) && FirstSeesExit(ts, 2 * k + 1, q)
    requires k < 1000 && j < 9 && ts[|ts| - 1].n1 / 2 < 0x1_0000_0000 && log == Run(ts, |ts|).log
    ensures log[32 + 9 * k + j]
      == (Register(j, ts[q].onExit[j]) - Register(j, ts[p].onEntry[j])) % 0x1_0000_0000
    ensures TrueCost(ts, j, k) == ts[q].onExit[j] as int - ts[p].onEntry[j]
  {
    CostsAre(ts, k, p, q, j);
    PacedSeesAll(ts);
    CountsGrow(ts, q + 1, |ts|);
    PacedRun(ts, |ts|);
    RecordOf(ts, log, k, Exits(N1(ts, |ts|)), j);
  }

  lemma CostsAre(ts: seq<Turn>, k: nat, p: nat, q: nat, j: nat)
    requires FirstSeesEntry(ts, 2 * k, p) && FirstSeesExit(ts, 2 * k + 1, q) && j < 9
    ensures Cost(ts, k)[j] == (Register(j, ts[q].onExit[j]) - Register(j, ts[p].onEntry[j])) % 0x1_0000_0000
    ensures TrueCost(ts, j, k) == ts[q].onExit[j] as int - ts[p].onEntry[j]
  {
    TurnsAre(ts, k, p, q);
  }

  lemma RecordOf(ts: seq<Turn>, log: Log, k: nat, n: nat, j: nat)
    requires Recorded(log, LoggedBy(ts), n) && AllOwn(ts, n) && k < n && k < 1000 && j < 9
    ensures log[32 + 9 * k + j] == Cost(ts, k)[j]
  {
    assert RecordIs(log, LoggedBy(ts), k) && OwnCost(ts, k);
    NineWords(log, 32 + 9 * k, Cost(ts, k), j);
  }

  /** The words before the records: the calls completed, 1 while one is open, and the nine totals, exact for a metric
      that never falls and stays below its register's width. */
  lemma HeaderWords(ts: seq<Turn>, j: nat)
    requires Paced(ts) && |ts| > 0 && j < 9 && ts[|ts| - 1].n1 / 2 < 0x1_0000_0000
    ensures var log, t := Run(ts, |ts|).log, ts[|ts| - 1];
      log[0] == t.n1 / 2 && log[1] == (t.n0 + 1) / 2 - t.n1 / 2
      && (Monotone(ts, j) && Narrow(ts, j) ==> log[2 + j] == TrueSum(ts, j, t.n1 / 2))
  {
    PacedRun(ts, |ts|);
    var s := Run(ts, |ts|);
    NineWords(s.log, 2, s.totals, j);
    if Monotone(ts, j) && Narrow(ts, j) {
      TotalsWithinGrowth(ts, j);
    }
  }
}
