/** Go's `int` on a 64-bit platform: two's-complement integers whose
    arithmetic wraps around modulo 2^64. */
module GoInt {

  const Modulus: int := 0x1_0000_0000_0000_0000
  const MinInt: int := -0x8000_0000_0000_0000
  const MaxInt: int := 0x7FFF_FFFF_FFFF_FFFF

  /** `x` is representable as a Go `int`. */
  predicate InRange(x: int) {
    MinInt <= x <= MaxInt
  }

  /** The Go `int` that an unbounded result wraps around to. */
  function Wrap(x: int): (r: int)
    ensures InRange(r)
  {
    (x - MinInt) % Modulus + MinInt
  }

  /** Euclidean division by `Modulus` has exactly one quotient and remainder. */
  lemma DivModUnique(a: int, q: int, r: int)
    requires a == q * Modulus + r && 0 <= r < Modulus
    ensures a / Modulus == q && a % Modulus == r
  {
    var q', r' := a / Modulus, a % Modulus;
    assert a == q' * Modulus + r';
    assert (q - q') * Modulus == r' - r;
  }

  /** A value that already fits is left alone. */
  lemma WrapInRange(x: int)
    requires InRange(x)
    ensures Wrap(x) == x
  {
    DivModUnique(x - MinInt, 0, x - MinInt);
  }

  /** Adding a multiple of 2^64 does not change the wrapped value. */
  lemma WrapShift(x: int, k: int)
    ensures Wrap(x + k * Modulus) == Wrap(x)
  {
    var q, r := (x - MinInt) / Modulus, (x - MinInt) % Modulus;
    DivModUnique(x + k * Modulus - MinInt, q + k, r);
  }

  /** Wrapping after every addition gives the same result as wrapping once at
      the end: Go's `+` on `int` is addition modulo 2^64. */
  lemma WrapAdd(a: int, b: int)
    ensures Wrap(Wrap(a) + Wrap(b)) == Wrap(a + b)
  {
    var qa, qb := (a - MinInt) / Modulus, (b - MinInt) / Modulus;
    assert Wrap(a) == a - qa * Modulus;
    assert Wrap(b) == b - qb * Modulus;
    WrapShift(a + b, -(qa + qb));
  }
}
