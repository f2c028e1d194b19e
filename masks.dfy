/** Bit arithmetic on non-negative C `int`s, as used for the particle-type skip masks:
    `1<<i` is Pow2(i), testing bit i is Bit(m, i), and Mask(bits) is the integer whose
    bit i is bits[i]. */
module Masks {

  /** 1 << i */
  function Pow2(i: nat): (r: nat)
    ensures r >= 1
  {
    if i == 0 then 1 else 2 * Pow2(i - 1)
  }

  /** (m >> i) & 1 == 1 */
  function Bit(m: nat, i: nat): bool
  {
    if i == 0 then m % 2 == 1 else Bit(m / 2, i - 1)
  }

  /** The integer whose bit i is bits[i], least significant bit first. */
  function Mask(bits: seq<bool>): (m: nat)
    ensures m < Pow2(|bits|)
  {
    if bits == [] then 0 else (if bits[0] then 1 else 0) + 2 * Mask(bits[1..])
  }

  lemma {:induction false} ZeroHasNoBits(i: nat)
    ensures !Bit(0, i)
  {
    if i > 0 {
      ZeroHasNoBits(i - 1);
    }
  }

  /** Bit i of Mask(bits) is set exactly when i names a true entry of bits. */
  lemma {:induction false} MaskBit(bits: seq<bool>, i: nat)
    ensures Bit(Mask(bits), i) == (i < |bits| && bits[i])
  {
    if bits == [] {
      ZeroHasNoBits(i);
    } else if i > 0 {
      assert Mask(bits) / 2 == Mask(bits[1..]);
      MaskBit(bits[1..], i - 1);
    }
  }

  lemma MaskBits(bits: seq<bool>)
    ensures forall i: nat :: Bit(Mask(bits), i) == (i < |bits| && bits[i])
  {
    forall i: nat ensures Bit(Mask(bits), i) == (i < |bits| && bits[i]) {
      MaskBit(bits, i);
    }
  }

  /** Subtracting 1<<i from a mask whose bit i is set clears that bit and nothing else. */
  lemma {:induction false} MaskClear(bits: seq<bool>, i: nat)
    requires i < |bits| && bits[i]
    ensures Mask(bits[i := false]) == Mask(bits) - Pow2(i)
  {
    if i == 0 {
      assert bits[i := false][1..] == bits[1..];
    } else {
      assert bits[i := false][1..] == bits[1..][i - 1 := false];
      MaskClear(bits[1..], i - 1);
    }
  }

  /** n bits, all set except bit t (all set when t is negative). */
  function Except(n: nat, t: int): (bits: seq<bool>)
    ensures |bits| == n
    ensures forall i :: 0 <= i < n ==> bits[i] == (i != t)
  {
    if n == 0 then [] else [t != 0] + Except(n - 1, t - 1)
  }

  /** (1<<n) - 1 - (1<<t) has every bit below n set except bit t, and (1<<n) - 1 has all
      n of them set. */
  lemma {:induction false} MaskExcept(n: nat, t: int)
    requires t < n
    ensures Mask(Except(n, t)) == Pow2(n) - 1 - (if t >= 0 then Pow2(t) else 0)
  {
    if n > 0 {
      assert Except(n, t)[1..] == Except(n - 1, t - 1);
      MaskExcept(n - 1, t - 1);
    }
  }
}
