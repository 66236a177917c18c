// Saturating `u32` counters: `saturating_add` and `u32::try_from(..).unwrap_or(u32::MAX)`.
module Saturating {
  const U32_MAX: nat := 0xFFFF_FFFF

  function Sat(n: nat): (r: nat)
    ensures r <= U32_MAX
  {
    if n <= U32_MAX then n else U32_MAX
  }

  function SatAdd(a: nat, b: nat): nat {
    if a + b <= U32_MAX then a + b else U32_MAX
  }

  /** Clamping once at the end is clamping at every step. */
  lemma SatAddOfSat(a: nat, b: nat)
    ensures SatAdd(Sat(a), Sat(b)) == Sat(a + b)
    ensures SatAdd(Sat(a), b) == Sat(a + b)
    ensures SatAdd(a, b) == Sat(a + b)
  {
  }

  lemma SatMonotone(a: nat, b: nat)
    requires a <= b
    ensures Sat(a) <= Sat(b)
  {
  }

  /** Four clamped parts of a total add up to the clamped total. */
  lemma SatAddOfFour(a: nat, b: nat, c: nat, d: nat)
    ensures SatAdd(SatAdd(SatAdd(Sat(a), Sat(b)), Sat(c)), Sat(d)) == Sat(a + b + c + d)
  {
    SatAddOfSat(a, b);
    SatAddOfSat(a + b, c);
    SatAddOfSat(a + b + c, d);
  }
}
