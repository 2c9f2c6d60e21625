/** C's bitwise operators on unsigned integers, defined bit by bit, and the arithmetic they
    amount to where fields do not overlap. */
module Bits {

  function Pow2(k: nat): (p: nat)
    ensures p > 0
  {
    if k == 0 then 1 else 2 * Pow2(k - 1)
  }

  function And(x: nat, y: nat): nat
  {
    if x == 0 || y == 0 then 0 else 2 * And(x / 2, y / 2) + (if x % 2 == 1 && y % 2 == 1 then 1 else 0)
  }

  function Or(x: nat, y: nat): nat
    decreases x + y
  {
    if x == 0 then y else if y == 0 then x
    else 2 * Or(x / 2, y / 2) + (if x % 2 == 1 || y % 2 == 1 then 1 else 0)
  }

  /** Left shift of a 32-bit unsigned word, one bit at a time. */
  function Shl32(x: nat, k: nat): nat
    decreases k, x
  {
    if k == 0 then x % 0x1_0000_0000 else Shl32(2 * x, k - 1)
  }

  function Shr(x: nat, k: nat): nat
    decreases k, x
  {
    if k == 0 then x else Shr(x / 2, k - 1)
  }

  lemma {:induction false} PowSplit(a: nat, b: nat)
    ensures Pow2(a + b) == Pow2(a) * Pow2(b)
    decreases b
  {
    if b > 0 {
      PowSplit(a, b - 1);
    }
  }

  /** Shifting left multiplies, as long as nothing is shifted out. */
  lemma {:induction false} ShlFits(x: nat, k: nat, p: nat)
    requires p == Pow2(k) && x * p < 0x1_0000_0000
    ensures Shl32(x, k) == x * p
    decreases k
  {
    if k == 0 {
      assert x * p == x;
    } else {
      var half := Pow2(k - 1);
      assert x * p == (2 * x) * half;
      ShlFits(2 * x, k - 1, half);
    }
  }

  /** Shifting right divides. */
  lemma {:induction false} ShrIs(x: nat, k: nat, p: nat)
    requires p == Pow2(k)
    ensures Shr(x, k) == x / p
    decreases k
  {
    if k == 0 {
      assert x / 1 == x;
    } else {
      ShrIs(x / 2, k - 1, Pow2(k - 1));
      HalveDiv(x, Pow2(k - 1));
    }
  }

  lemma {:induction false} AndOdd(x: nat, p: nat)
    requires x > 0 && p > 0
    ensures And(x, 2 * p - 1) == 2 * And(x / 2, p - 1) + x % 2
  {
    assert (2 * p - 1) / 2 == p - 1 && (2 * p - 1) % 2 == 1;
  }

  lemma {:induction false} AndMask(x: nat, k: nat)
    ensures And(x, Pow2(k) - 1) == x % Pow2(k)
  {
    if k == 0 {
      assert x % 1 == 0;
    } else if x == 0 {
      ZeroMod(Pow2(k));
    } else {
      var p := Pow2(k - 1);
      assert Pow2(k) == 2 * p;
      AndMask(x / 2, k - 1);
      HalveMod(x, p);
      AndOdd(x, p);
    }
  }

  lemma ZeroMod(m: nat)
    requires m > 0
    ensures 0 % m == 0
  {
  }

  lemma HalveMod(x: nat, p: nat)
    requires p > 0
    ensures x % (2 * p) == 2 * ((x / 2) % p) + x % 2
  {
    var h := x / 2;
    var r := 2 * (h % p) + x % 2;
    var d := h / p;
    assert h == d * p + h % p;
    assert 2 * h == d * (2 * p) + 2 * (h % p);
    DivModUnique(x, 2 * p, d, r);
  }

  lemma DivModUnique(x: nat, m: nat, q: nat, r: nat)
    requires m > 0 && r < m && x == q * m + r
    ensures x / m == q && x % m == r
  {
    var d := x / m - q;
    assert x == (x / m) * m + x % m;
    assert d * m == r - x % m;
    assert d >= 1 ==> d * m >= m;
    assert d <= -1 ==> d * m <= 0 - m;
  }

  /** Testing one bit. */
  lemma {:induction false} AndBit(x: nat, k: nat)
    ensures And(x, Pow2(k)) == if Shr(x, k) % 2 == 1 then Pow2(k) else 0
  {
    if k == 0 {
      assert And(x / 2, 0) == 0;
    } else if x > 0 {
      AndBit(x / 2, k - 1);
    } else {
      ShrIs(0, k, Pow2(k));
      ZeroDiv(Pow2(k));
    }
  }

  lemma ZeroDiv(m: nat)
    requires m > 0
    ensures 0 / m == 0
  {
  }

  lemma HalveDiv(x: nat, p: nat)
    requires p > 0
    ensures x / (2 * p) == (x / 2) / p
  {
    var h := x / 2;
    assert h == (h / p) * p + h % p;
    assert 2 * h == (h / p) * (2 * p) + 2 * (h % p);
    DivModUnique(x, 2 * p, h / p, 2 * (h % p) + x % 2);
  }

  /** Fields that do not overlap combine by addition. */
  lemma {:induction false} OrDisjoint(x: nat, y: nat, k: nat)
    requires y < Pow2(k) && x % Pow2(k) == 0
    ensures Or(x, y) == x + y
    decreases k
  {
    if k > 0 && x > 0 && y > 0 {
      HalveMod(x, Pow2(k - 1));
      OrDisjoint(x / 2, y / 2, k - 1);
    }
  }

  lemma {:induction false} OrCommutes(x: nat, y: nat)
    ensures Or(x, y) == Or(y, x)
    decreases x + y
  {
    if x > 0 && y > 0 {
      OrCommutes(x / 2, y / 2);
    }
  }

  lemma MultipleMod(x: nat, p: nat)
    requires p > 0
    ensures (x * p) % p == 0
  {
    DivModUnique(x * p, p, x, 0);
  }

  /** Adding a field above the ones already there. */
  lemma FieldAbove(low: nat, field: nat, k: nat, p: nat)
    requires p == Pow2(k) && low < p && field * p < 0x1_0000_0000
    ensures Or(low, Shl32(field, k)) == low + field * p
  {
    ShlFits(field, k, p);
    MultipleMod(field, p);
    OrCommutes(low, field * p);
    OrDisjoint(field * p, low, k);
  }

  /** Adding a field below the ones already there, which are multiples of p. */
  lemma FieldBelow(multiple: nat, low: nat, k: nat, p: nat)
    requires p == Pow2(k) && low < p
    ensures Or(multiple * p, low) == multiple * p + low
  {
    MultipleMod(multiple, p);
    OrDisjoint(multiple * p, low, k);
  }
}
