/** Bubble sort with early exit: what one pass and the whole sort compute, the golden C routine,
    and that the result is the sorted permutation of the input. */
module BubbleSort {

  function Swap(a: seq<nat>, i: nat): (b: seq<nat>)
    requires i + 1 < |a|
    ensures |b| == |a|
  {
    a[i := a[i + 1]][i + 1 := a[i]]
  }

  /** Compare and swap neighbours i .. k; also says whether anything was swapped. */
  function Pass(a: seq<nat>, i: nat, k: nat): (r: (seq<nat>, bool))
    requires i <= k < |a|
    ensures |r.0| == |a|
    decreases k - i
  {
    if i == k then (a, false)
    else if a[i] > a[i + 1] then (Pass(Swap(a, i), i + 1, k).0, true)
    else Pass(a, i + 1, k)
  }

  /** Passes over [0, k], [0, k - 1], ... until one swaps nothing. */
  function Sort(a: seq<nat>, k: nat): (b: seq<nat>)
    requires k < |a|
    ensures |b| == |a|
    decreases k
  {
    if k == 0 then a
    else
      var (b, swapped) := Pass(a, 0, k);
      if swapped then Sort(b, k - 1) else b
  }

  function BubbleSorted(a: seq<nat>): (b: seq<nat>)
    requires a != []
    ensures |b| == |a|
  {
    Sort(a, |a| - 1)
  }

  ghost predicate Sorted(a: seq<nat>)
  {
    forall i, j :: 0 <= i <= j < |a| ==> a[i] <= a[j]
  }

  /** Everything from position k + 1 on is in its final place. */
  ghost predicate SuffixDone(a: seq<nat>, k: nat)
  {
    forall i, j :: 0 <= i <= j < |a| && k < j ==> a[i] <= a[j]
  }

  lemma SwapPermutes(a: seq<nat>, i: nat)
    requires i + 1 < |a|
    ensures multiset(Swap(a, i)) == multiset(a)
  {
    assert a == a[..i] + [a[i], a[i + 1]] + a[i + 2..];
    assert Swap(a, i) == a[..i] + [a[i + 1], a[i]] + a[i + 2..];
  }

  /** A pass permutes and touches only [i, k]. */
  lemma {:induction false} PassPermutes(a: seq<nat>, i: nat, k: nat)
    requires i <= k < |a|
    ensures multiset(Pass(a, i, k).0) == multiset(a)
    ensures forall j :: 0 <= j < |a| && !(i <= j <= k) ==> Pass(a, i, k).0[j] == a[j]
    decreases k - i
  {
    if i < k {
      if a[i] > a[i + 1] {
        SwapPermutes(a, i);
        PassPermutes(Swap(a, i), i + 1, k);
      } else {
        PassPermutes(a, i + 1, k);
      }
    }
  }

  /** A pass leaves the maximum of [i, k] at k. */
  lemma {:induction false} PassMovesMax(a: seq<nat>, i: nat, k: nat)
    requires i <= k < |a|
    ensures forall j :: i <= j <= k ==> a[j] <= Pass(a, i, k).0[k] && Pass(a, i, k).0[j] <= Pass(a, i, k).0[k]
    decreases k - i
  {
    if i < k {
      var c := if a[i] > a[i + 1] then Swap(a, i) else a;
      PassMovesMax(c, i + 1, k);
      PassPermutes(c, i + 1, k);
      assert Pass(a, i, k).0 == Pass(c, i + 1, k).0;
      assert c[i] <= c[i + 1] <= Pass(c, i + 1, k).0[k];
    }
  }

  /** A bound on what a pass works on bounds what it produces. */
  lemma {:induction false} PassBounded(a: seq<nat>, i: nat, k: nat, bound: nat)
    requires i <= k < |a|
    requires forall j :: 0 <= j <= k ==> a[j] <= bound
    ensures forall j :: 0 <= j <= k ==> Pass(a, i, k).0[j] <= bound
    decreases k - i
  {
    if i < k {
      PassBounded(if a[i] > a[i + 1] then Swap(a, i) else a, i + 1, k, bound);
    }
  }

  /** A pass that swaps nothing found its range in order and changed nothing. */
  lemma {:induction false} QuietPass(a: seq<nat>, i: nat, k: nat)
    requires i <= k < |a| && !Pass(a, i, k).1
    ensures Pass(a, i, k).0 == a && forall j :: i <= j < k ==> a[j] <= a[j + 1]
    decreases k - i
  {
    if i < k {
      QuietPass(a, i + 1, k);
    }
  }

  lemma {:induction false} AdjacentSorted(a: seq<nat>, k: nat)
    requires k < |a| && SuffixDone(a, k)
    requires forall j :: 0 <= j < k ==> a[j] <= a[j + 1]
    ensures Sorted(a)
  {
    forall i, j | 0 <= i <= j < |a| ensures a[i] <= a[j] {
      if j <= k {
        Climb(a, k, i, j);
      }
    }
  }

  lemma {:induction false} Climb(a: seq<nat>, k: nat, i: nat, j: nat)
    requires i <= j <= k < |a|
    requires forall m :: 0 <= m < k ==> a[m] <= a[m + 1]
    ensures a[i] <= a[j]
    decreases j - i
  {
    if i < j {
      Climb(a, k, i, j - 1);
    }
  }

  lemma {:induction false} SortCorrect(a: seq<nat>, k: nat)
    requires k < |a| && SuffixDone(a, k)
    ensures Sorted(Sort(a, k)) && multiset(Sort(a, k)) == multiset(a)
    decreases k
  {
    if k == 0 {
      AdjacentSorted(a, 0);
    } else {
      var (b, swapped) := Pass(a, 0, k);
      PassMovesMax(a, 0, k);
      PassPermutes(a, 0, k);
      if swapped {
        forall i, j | 0 <= i <= j < |b| && k - 1 < j ensures b[i] <= b[j] {
          if k < j {
            PassBounded(a, 0, k, a[j]);
          }
        }
        SortCorrect(b, k - 1);
      } else {
        QuietPass(a, 0, k);
        AdjacentSorted(a, k);
      }
    }
  }

  /** A pass over a sorted array swaps nothing. */
  lemma {:induction false} SortedPass(a: seq<nat>, i: nat, k: nat)
    requires i <= k < |a| && Sorted(a)
    ensures Pass(a, i, k) == (a, false)
    decreases k - i
  {
    if i < k {
      SortedPass(a, i + 1, k);
    }
  }

  /** The sort leaves an array alone exactly when it is sorted. */
  lemma SortedStays(a: seq<nat>)
    requires a != []
    ensures BubbleSorted(a) == a <==> Sorted(a)
  {
    BubbleSortCorrect(a);
    if Sorted(a) {
      SortedPass(a, 0, |a| - 1);
    }
  }

  /** The result is the sorted permutation of the input. */
  lemma BubbleSortCorrect(a: seq<nat>)
    requires a != []
    ensures Sorted(BubbleSorted(a)) && multiset(BubbleSorted(a)) == multiset(a)
  {
    SortCorrect(a, |a| - 1);
  }

  /** The golden routine. Callers pass at least one element: `len - 1` is unsigned. */
  method BubbleSortC(words: array<nat>)
    requires words.Length >= 1
    modifies words
    ensures words[..] == BubbleSorted(old(words[..]))
    ensures Sorted(words[..]) && multiset(words[..]) == old(multiset(words[..]))
  {
    ghost var a0 := words[..];
    BubbleSortCorrect(a0);
    var len := words.Length;
    var step := 0;
    while step < len - 1
      invariant 0 <= step <= len - 1
      invariant Sort(words[..], len - 1 - step) == BubbleSorted(a0)
    {
      var swapped := 0;
      ghost var (a, k) := (words[..], len - step - 1);
      var i := 0;
      while i < len - step - 1
        invariant 0 <= i <= k && 0 <= swapped <= 1
        invariant Pass(words[..], i, k).0 == Pass(a, 0, k).0
        invariant (swapped == 1 || Pass(words[..], i, k).1) == Pass(a, 0, k).1
      {
        if words[i] > words[i + 1] {
          ghost var before := words[..];
          var temp := words[i];
          words[i] := words[i + 1];
          words[i + 1] := temp;
          assert words[..] == Swap(before, i);
          swapped := 1;
        }
        i := i + 1;
      }
      assert words[..] == Pass(a, 0, k).0 && (swapped == 1) == Pass(a, 0, k).1;
      if swapped == 0 {
        break;
      }
      step := step + 1;
    }
  }
}
