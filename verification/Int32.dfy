/** Go's `int32`: exact arithmetic, and the same arithmetic wrapped at 32 bits. */
module Int32 {
  const MIN := -0x8000_0000
  const MAX := 0x7fff_ffff
  const MODULUS := 0x1_0000_0000

  type int32 = x: int | -0x8000_0000 <= x <= 0x7fff_ffff

  /** The same step functions are read with unbounded integers or with wrap-around. */
  datatype Arith = Exact | Wrapping

  predicate InRange(x: int) {
    MIN <= x <= MAX
  }

  function Norm(m: Arith, x: int): (r: int)
    ensures m.Wrapping? ==> InRange(r)
    ensures InRange(x) ==> r == x
  {
    if m.Exact? then x else (x - MIN) % MODULUS + MIN
  }

  /** Wrapping an accumulator at every step is wrapping the total once. */
  lemma NormAccumulates(m: Arith, x: int, y: int)
    ensures Norm(m, Norm(m, x) + y) == Norm(m, x + y)
  {
    var q, r := (x - MIN) / MODULUS, (x - MIN) % MODULUS;
    assert x + y - MIN == MODULUS * q + (r + y);
  }

  /** Equal as far as the arithmetic can tell. */
  predicate Agree(m: Arith, x: int, y: int) {
    if m.Exact? then x == y else (x - y) % MODULUS == 0
  }

  /** What wrapping drops does not show. */
  lemma NormCancels(m: Arith, base: int, x: int, y: int)
    ensures Agree(m, base + (Norm(m, x) - x) - (Norm(m, y) - y), base)
  {
  }
}
