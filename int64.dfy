/** Go's `int64`: a signed 64-bit integer whose `+` and `-` wrap around
    (two's complement) instead of failing. */
module Int64Arith {

  const MIN64: int := -0x8000_0000_0000_0000
  const MAX64: int := 0x7FFF_FFFF_FFFF_FFFF
  const MOD64: int := 0x1_0000_0000_0000_0000

  predicate InRange(x: int) {
    MIN64 <= x <= MAX64
  }

  type Int64 = x: int | MIN64 <= x <= MAX64

  /** The int64 that Go's arithmetic yields for the mathematical value `x`:
      the unique int64 congruent to `x` modulo 2^64. */
  function Wrap(x: int): (r: Int64)
    ensures (x - r) % MOD64 == 0
    ensures InRange(x) ==> r == x
  {
    (x - MIN64) % MOD64 + MIN64
  }

  /** Two values congruent modulo 2^64 wrap to the same int64. */
  lemma WrapCongruent(x: int, y: int)
    requires (x - y) % MOD64 == 0
    ensures Wrap(x) == Wrap(y)
  {
    var k := (x - y) / MOD64;
    assert x - MIN64 == (y - MIN64) + k * MOD64;
    var q := (y - MIN64) / MOD64;
    var r := (y - MIN64) % MOD64;
    assert x - MIN64 == (q + k) * MOD64 + r;
    ModUnique(x - MIN64, q + k, r);
  }

  lemma ModUnique(z: int, q: int, r: int)
    requires 0 <= r < MOD64 && z == q * MOD64 + r
    ensures z % MOD64 == r
  {
  }

  /** Wrapping after every addition (as a Go accumulator does) is the same as
      wrapping once at the end. */
  lemma WrapAdd(a: int, b: int)
    ensures Wrap(Wrap(a) + b) == Wrap(a + b)
  {
    WrapCongruent(Wrap(a) + b, a + b);
  }
}
