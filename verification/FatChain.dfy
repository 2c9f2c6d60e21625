/** Cluster chains: walks along the FAT. */
module FatChain {
  import opened Fat16

  predicate InUse(c: nat) { 2 <= c < CLUSTER_END }

  /** The clusters a walk along the FAT visits from `c`, up to the first number that is no cluster. */
  ghost predicate Leads(m: Ram, f: Layout, c: nat, cs: seq<nat>)
    requires c < 0x1_0000
    decreases |cs|
  {
    if cs == [] then !InUse(c) else InUse(c) && cs[0] == c && Leads(m, f, Fat(m, f, c), cs[1..])
  }

  lemma {:induction false} LeadsUnique(m: Ram, f: Layout, c: nat, cs: seq<nat>, ds: seq<nat>)
    requires c < 0x1_0000 && Leads(m, f, c, cs) && Leads(m, f, c, ds)
    ensures cs == ds
    decreases |cs|
  {
    if cs != [] && ds != [] {
      LeadsUnique(m, f, Fat(m, f, c), cs[1..], ds[1..]);
      assert cs == [cs[0]] + cs[1..] && ds == [ds[0]] + ds[1..];
    }
  }

  /** The first `n` clusters of the walk, fewer if it ends. */
  function Follow(m: Ram, f: Layout, c: nat, n: nat): (cs: seq<nat>)
    requires c < 0x1_0000
    ensures |cs| <= n && forall k :: 0 <= k < |cs| ==> InUse(cs[k])
    decreases n
  {
    if n == 0 || !InUse(c) then [] else [c] + Follow(m, f, Fat(m, f, c), n - 1)
  }

  predicate Distinct(cs: seq<nat>) { forall i, j :: 0 <= i < j < |cs| ==> cs[i] != cs[j] }

  ghost predicate WalkEnds(m: Ram, f: Layout, c: nat)
    requires c < 0x1_0000
  {
    exists cs :: Leads(m, f, c, cs)
  }

  /** The walk along the FAT ends exactly when it never meets a cluster twice. */
  lemma EndsUnlessItRepeats(m: Ram, f: Layout, c: nat)
    requires c < 0x1_0000
    ensures WalkEnds(m, f, c) <==> Distinct(Follow(m, f, c, CLUSTER_END))
  {
    if Distinct(Follow(m, f, c, CLUSTER_END)) {
      Pigeonhole(Follow(m, f, c, CLUSTER_END), CLUSTER_END);
      ShortLeads(m, f, c, CLUSTER_END);
    }
    if WalkEnds(m, f, c) {
      var cs :| Leads(m, f, c, cs);
      TheWalk(m, f, c, cs);
    }
  }

  lemma TheWalk(m: Ram, f: Layout, c: nat, cs: seq<nat>)
    requires c < 0x1_0000 && Leads(m, f, c, cs)
    ensures Distinct(cs) && cs == Follow(m, f, c, CLUSTER_END) && |cs| <= CLUSTER_END - 2
  {
    LeadsDistinct(m, f, c, cs);
    Pigeonhole(cs, CLUSTER_END);
    LeadsFollows(m, f, c, cs, CLUSTER_END);
  }

  lemma {:induction false} LeadsFollows(m: Ram, f: Layout, c: nat, cs: seq<nat>, n: nat)
    requires c < 0x1_0000 && Leads(m, f, c, cs) && |cs| < n
    ensures cs == Follow(m, f, c, n)
    decreases n
  {
    if cs != [] {
      LeadsFollows(m, f, Fat(m, f, c), cs[1..], n - 1);
      assert cs == [cs[0]] + cs[1..];
    }
  }

  lemma {:induction false} ShortLeads(m: Ram, f: Layout, c: nat, n: nat)
    requires c < 0x1_0000 && |Follow(m, f, c, n)| < n
    ensures Leads(m, f, c, Follow(m, f, c, n))
    decreases n
  {
    if InUse(c) {
      ShortLeads(m, f, Fat(m, f, c), n - 1);
      assert Follow(m, f, c, n)[1..] == Follow(m, f, Fat(m, f, c), n - 1);
    }
  }

  lemma {:induction false} LeadsSuffix(m: Ram, f: Layout, c: nat, cs: seq<nat>, k: nat)
    requires c < 0x1_0000 && Leads(m, f, c, cs) && k < |cs|
    ensures cs[k] < 0x1_0000 && Leads(m, f, cs[k], cs[k..])
    decreases k
  {
    if k > 0 {
      LeadsSuffix(m, f, Fat(m, f, c), cs[1..], k - 1);
      assert cs[1..][k - 1..] == cs[k..];
    } else {
      assert cs[0..] == cs;
    }
  }

  /** A cluster met twice would lead to its end in two different numbers of steps. */
  lemma LeadsDistinct(m: Ram, f: Layout, c: nat, cs: seq<nat>)
    requires c < 0x1_0000 && Leads(m, f, c, cs)
    ensures Distinct(cs) && forall k :: 0 <= k < |cs| ==> InUse(cs[k])
  {
    forall i, j | 0 <= i < j < |cs| ensures cs[i] != cs[j] {
      LeadsSuffix(m, f, c, cs, i);
      LeadsSuffix(m, f, c, cs, j);
      if cs[i] == cs[j] {
        LeadsUnique(m, f, cs[i], cs[i..], cs[j..]);
      }
    }
    forall k | 0 <= k < |cs| ensures InUse(cs[k]) {
      LeadsSuffix(m, f, c, cs, k);
    }
  }

  lemma {:induction false} Pigeonhole(cs: seq<nat>, n: nat)
    requires n >= 2 && Distinct(cs) && forall k :: 0 <= k < |cs| ==> 2 <= cs[k] < n
    ensures |cs| <= n - 2
    decreases n
  {
    assert cs != [] ==> 2 <= cs[0] < n;
    if cs == [] {
    } else if exists k :: 0 <= k < |cs| && cs[k] == n - 1 {
      var k :| 0 <= k < |cs| && cs[k] == n - 1;
      Pigeonhole(cs[..k] + cs[k + 1..], n - 1);
    } else {
      Pigeonhole(cs, n - 1);
    }
  }

  // ---- the walk, step by step ----

  /** The number reached after `i` steps, whether or not there is a cluster of that number. */
  function Nth(m: Ram, f: Layout, c: nat, i: nat): (r: nat)
    requires c < 0x1_0000
    ensures r < 0x1_0000
    decreases i
  {
    if i == 0 then c else Fat(m, f, Nth(m, f, c, i - 1))
  }

  predicate InUseAt(m: Ram, f: Layout, c: nat, i: nat)
    requires c < 0x1_0000
  {
    InUse(Nth(m, f, c, i))
  }

  /** The first `n` numbers are all clusters. */
  ghost predicate LastsFor(m: Ram, f: Layout, c: nat, n: nat)
    requires c < 0x1_0000
  {
    forall i :: 0 <= i < n ==> InUseAt(m, f, c, i)
  }

  lemma {:induction false} NthNext(m: Ram, f: Layout, c: nat, i: nat)
    requires c < 0x1_0000
    ensures Nth(m, f, Fat(m, f, c), i) == Nth(m, f, c, i + 1)
    decreases i
  {
    if i > 0 {
      NthNext(m, f, c, i - 1);
    } else {
      assert Nth(m, f, c, 0) == c;
    }
  }

  lemma LastsNext(m: Ram, f: Layout, c: nat, n: nat)
    requires c < 0x1_0000 && n > 0
    ensures LastsFor(m, f, c, n) <==> InUse(c) && LastsFor(m, f, Fat(m, f, c), n - 1)
  {
    var d := Fat(m, f, c);
    assert Nth(m, f, c, 0) == c;
    if LastsFor(m, f, c, n) {
      assert InUseAt(m, f, c, 0);
      forall i | 0 <= i < n - 1 ensures InUseAt(m, f, d, i) {
        NthNext(m, f, c, i);
        assert InUseAt(m, f, c, i + 1);
      }
    }
    if InUse(c) && LastsFor(m, f, d, n - 1) {
      forall i | 0 <= i < n ensures InUseAt(m, f, c, i) {
        if i > 0 {
          NthNext(m, f, c, i - 1);
          assert InUseAt(m, f, d, i - 1);
        }
      }
    }
  }

  lemma {:induction false} FollowLasts(m: Ram, f: Layout, c: nat, n: nat)
    requires c < 0x1_0000
    ensures |Follow(m, f, c, n)| == n <==> LastsFor(m, f, c, n)
    decreases n
  {
    if n > 0 {
      LastsNext(m, f, c, n);
      FollowLasts(m, f, Fat(m, f, c), n - 1);
    }
  }

  lemma {:induction false} FollowNth(m: Ram, f: Layout, c: nat, n: nat, i: nat)
    requires c < 0x1_0000 && i < |Follow(m, f, c, n)|
    ensures Follow(m, f, c, n)[i] == Nth(m, f, c, i)
    decreases i
  {
    if i > 0 {
      NthNext(m, f, c, i - 1);
      FollowNth(m, f, Fat(m, f, c), n - 1, i - 1);
    }
  }

  /** The walk ends exactly when it meets a number that is no cluster, however late. */
  lemma EndsAtNoCluster(m: Ram, f: Layout, c: nat)
    requires c < 0x1_0000
    ensures WalkEnds(m, f, c) <==> exists i: nat :: !InUseAt(m, f, c, i)
  {
    if WalkEnds(m, f, c) {
      var cs :| Leads(m, f, c, cs);
      LeadsFollows(m, f, c, cs, |cs| + 1);
      FollowLasts(m, f, c, |cs| + 1);
    }
    if i: nat :| !InUseAt(m, f, c, i) {
      FollowLasts(m, f, c, i + 1);
      ShortLeads(m, f, c, i + 1);
    }
  }

  lemma {:induction false} NthAgain(m: Ram, f: Layout, c: nat, a: nat, b: nat, k: nat)
    requires c < 0x1_0000 && Nth(m, f, c, a) == Nth(m, f, c, b)
    ensures Nth(m, f, c, a + k) == Nth(m, f, c, b + k)
    decreases k
  {
    if k > 0 {
      NthAgain(m, f, c, a, b, k - 1);
    }
  }

  lemma Repeats(m: Ram, f: Layout, c: nat) returns (a: nat, b: nat)
    requires c < 0x1_0000 && !WalkEnds(m, f, c)
    ensures a < b < CLUSTER_END && Nth(m, f, c, a) == Nth(m, f, c, b)
  {
    EndsUnlessItRepeats(m, f, c);
    a, b := RepeatsWithin(m, f, c, CLUSTER_END);
  }

  lemma RepeatsWithin(m: Ram, f: Layout, c: nat, n: nat) returns (a: nat, b: nat)
    requires c < 0x1_0000 && !Distinct(Follow(m, f, c, n))
    ensures a < b < n && Nth(m, f, c, a) == Nth(m, f, c, b)
  {
    var cs := Follow(m, f, c, n);
    a, b :| 0 <= a < b < |cs| && cs[a] == cs[b];
    FollowNth(m, f, c, n, a);
    FollowNth(m, f, c, n, b);
  }

  /** A walk that does not end has visited all it ever will after as many steps as there are clusters. */
  lemma {:induction false} NothingNew(m: Ram, f: Layout, c: nat, i: nat) returns (j: nat)
    requires c < 0x1_0000 && !WalkEnds(m, f, c)
    ensures j < CLUSTER_END && Nth(m, f, c, j) == Nth(m, f, c, i)
    decreases i
  {
    if i < CLUSTER_END {
      j := i;
    } else {
      var a, b := Repeats(m, f, c);
      NthAgain(m, f, c, a, b, i - b);
      j := NothingNew(m, f, c, i - (b - a));
    }
  }
}
