/** Arithmetic of 32-bit machine words, written out on unbounded integers.
    `U32` is conversion to uint32_t, `S32` conversion to int32_t (two's complement). */
module Machine32 {

  const TWO31: int := 0x8000_0000
  const TWO32: int := 0x1_0000_0000

  type Byte = x: int | 0 <= x < 256

  function Min(x: int, y: int): int { if x <= y then x else y }

  function Max(x: int, y: int): int { if x >= y then x else y }

  function Zeros(n: nat): (z: seq<Byte>)
    ensures |z| == n && forall k :: 0 <= k < n ==> z[k] == 0
  {
    seq(n, i => 0)
  }

  predicate IsU32(x: int) { 0 <= x < TWO32 }

  predicate IsS32(x: int) { -TWO31 <= x < TWO31 }

  function U32(x: int): (r: nat)
    ensures IsU32(r)
  {
    x % TWO32
  }

  function S32(x: int): (r: int)
    ensures IsS32(r)
  {
    var u := x % TWO32;
    if u < TWO31 then u else u - TWO32
  }

  /** Two integers that denote the same 32-bit pattern. */
  predicate Congruent(x: int, y: int) { (x - y) % TWO32 == 0 }

  lemma SameWord(x: int, y: int)
    requires Congruent(x, y)
    ensures U32(x) == U32(y) && S32(x) == S32(y)
  {
  }

  lemma WordOf(x: int)
    ensures Congruent(U32(x), x) && Congruent(S32(x), x)
  {
  }

  /** Conversion is the identity exactly on the values the type can hold. */
  lemma S32Identity(x: int)
    ensures S32(x) == x <==> IsS32(x)
    ensures U32(x) == x <==> IsU32(x)
  {
  }

  lemma CongruentSum(x: int, x': int, y: int, y': int)
    requires Congruent(x, x') && Congruent(y, y')
    ensures Congruent(x + y, x' + y') && Congruent(x - y, x' - y')
  {
  }

  lemma CongruentProduct(x: int, x': int, y: int)
    requires Congruent(x, x')
    ensures Congruent(x * y, x' * y) && Congruent(y * x, y * x')
  {
    var k := (x - x') / TWO32;
    assert x == x' + k * TWO32;
    assert x * y - x' * y == (k * y) * TWO32;
    MultipleIsZero(k * y);
  }

  /** A product of converted words, converted back, denotes the exact product. */
  lemma WordProduct(x: int, y: int)
    ensures Congruent(S32(U32(U32(x) * U32(y))), x * y)
    ensures IsS32(x * y) ==> S32(U32(U32(x) * U32(y))) == x * y
  {
    CongruentProduct(U32(x), x, U32(y));
    CongruentProduct(U32(y), y, x);
    CongruentTwice(U32(x) * U32(y), x * U32(y), x * y);
  }

  lemma CongruentTwice(p: int, q: int, r: int)
    requires Congruent(p, q) && Congruent(q, r)
    ensures Congruent(S32(U32(p)), r)
    ensures IsS32(r) ==> S32(U32(p)) == r
  {
  }

  lemma MultipleIsZero(k: int)
    ensures (k * TWO32) % TWO32 == 0
  {
  }
}
