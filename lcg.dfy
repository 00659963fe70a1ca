/**
 * The game's deterministic 64-bit linear-congruential generator. Swift's
 * wrapping `&*` and `&+` on UInt64 are arithmetic modulo 2^64.
 */
module Lcg {

  const Modulus: int := 0x1_0000_0000_0000_0000
  const Multiplier: int := 6364136223846793005
  const Increment: int := 1
  /** The state a zero seed is replaced by. */
  const ZeroSeedState: int := 0x4d595df4d0f33173
  /** The inverse of Multiplier modulo 2^64 (Multiplier is odd, so it has one). */
  const MultiplierInverse: int := 0xc097ef87329e28a5

  type UInt64 = x: int | 0 <= x < 0x1_0000_0000_0000_0000

  /** The state a generator seeded with `seed` starts in. */
  function SeedState(seed: UInt64): (s: UInt64)
    ensures s != 0
    ensures seed != 0 ==> s == seed
    ensures seed == 0 ==> s == ZeroSeedState
  {
    if seed == 0 then ZeroSeedState else seed
  }

  /** One step of the generator: state * Multiplier + Increment, wrapping at 2^64. */
  function NextState(s: UInt64): UInt64 {
    (s * Multiplier + Increment) % Modulus
  }

  /** Runs the generator backwards by one step. */
  function PrevState(t: UInt64): UInt64 {
    ((t - Increment) * MultiplierInverse) % Modulus
  }

  lemma InverseIsInverse()
    ensures (Multiplier * MultiplierInverse) % Modulus == 1
  {
  }

  /** i*Modulus + r leaves remainder r. */
  lemma ModMultiple(i: int, r: int)
    requires 0 <= r < Modulus
    ensures (i * Modulus + r) % Modulus == r
  {
  }

  /** Stepping back undoes a step of the generator. */
  lemma PrevAfterNext(s: UInt64)
    ensures PrevState(NextState(s)) == s
  {
    var q := (s * Multiplier + Increment) / Modulus;
    var t := NextState(s);
    assert t == s * Multiplier + Increment - q * Modulus;
    var k := (Multiplier * MultiplierInverse) / Modulus;
    assert Multiplier * MultiplierInverse == k * Modulus + 1;
    calc {
      (t - Increment) * MultiplierInverse;
      (s * Multiplier - q * Modulus) * MultiplierInverse;
      s * (Multiplier * MultiplierInverse) - q * MultiplierInverse * Modulus;
      s * (k * Modulus + 1) - q * MultiplierInverse * Modulus;
      (s * k - q * MultiplierInverse) * Modulus + s;
    }
    ModMultiple(s * k - q * MultiplierInverse, s);
  }

  /** A step undoes stepping back: every state has exactly one predecessor. */
  lemma NextAfterPrev(t: UInt64)
    ensures NextState(PrevState(t)) == t
  {
    var q := ((t - Increment) * MultiplierInverse) / Modulus;
    var s := PrevState(t);
    assert s == (t - Increment) * MultiplierInverse - q * Modulus;
    var k := (Multiplier * MultiplierInverse) / Modulus;
    assert Multiplier * MultiplierInverse == k * Modulus + 1;
    calc {
      s * Multiplier + Increment;
      (t - Increment) * (MultiplierInverse * Multiplier) - q * Multiplier * Modulus + Increment;
      (t - Increment) * (k * Modulus + 1) - q * Multiplier * Modulus + Increment;
      ((t - Increment) * k - q * Multiplier) * Modulus + t;
    }
    ModMultiple((t - Increment) * k - q * Multiplier, t);
  }

  /** No two states have the same successor, so the generator never merges two streams. */
  lemma NextStateInjective(a: UInt64, b: UInt64)
    ensures NextState(a) == NextState(b) ==> a == b
  {
    PrevAfterNext(a);
    PrevAfterNext(b);
  }

  /** The generator object; Swift's value type `LCRNG` with its one mutable field. */
  class Lcrng {
    var state: UInt64

    constructor (seed: UInt64)
      ensures state == SeedState(seed)
    {
      state := if seed == 0 then ZeroSeedState else seed;
    }

    method Next() returns (r: UInt64)
      modifies this
      ensures state == NextState(old(state))
      ensures r == state
    {
      state := (state * Multiplier + Increment) % Modulus;
      r := state;
    }

    /** A draw in [0, upperBound): the next state reduced modulo the bound. */
    method NextInt(upperBound: int) returns (r: int)
      requires upperBound > 0
      modifies this
      ensures state == NextState(old(state))
      ensures r == state % upperBound
      ensures 0 <= r < upperBound
    {
      var n := Next();
      r := n % upperBound;
    }
  }
}
