/** Reading a natural number as a bitmask, as the exhaustive solvers do: the
    counter `m` stands for the choice vector whose entry `i` is bit `i` of `m`. */
module Bitmask {

  /** 2 to the power n, the number of masks over n positions. */
  function Pow2(n: nat): (r: nat)
    ensures r >= 1
  {
    if n == 0 then 1 else 2 * Pow2(n - 1)
  }

  /** Bit i of m, that is `m & (1 << i) != 0`. */
  function Bit(m: nat, i: nat): bool
  {
    if i == 0 then m % 2 == 1 else Bit(m / 2, i - 1)
  }

  /** The n low bits of m, least significant first: the list built by
      repeatedly taking `temp & 1` and shifting `temp` right. */
  function Bits(m: nat, n: nat): (b: seq<bool>)
    ensures |b| == n
  {
    if n == 0 then [] else [m % 2 == 1] + Bits(m / 2, n - 1)
  }

  /** Entry i of the bit list is bit i of the number. */
  lemma {:induction false} BitsAt(m: nat, n: nat, i: nat)
    requires i < n
    ensures Bits(m, n)[i] == Bit(m, i)
  {
    if i > 0 {
      BitsAt(m / 2, n - 1, i - 1);
    }
  }

  /** The number whose low bits are b: the inverse of Bits. */
  function FromBits(b: seq<bool>): (m: nat)
    ensures m < Pow2(|b|)
    ensures Bits(m, |b|) == b
  {
    if b == [] then 0
    else
      var rest := FromBits(b[1..]);
      var low := if b[0] then 1 else 0;
      LowAndHalf(low, rest);
      assert b == [b[0]] + b[1..];
      low + 2 * rest
  }

  lemma LowAndHalf(low: nat, rest: nat)
    requires low < 2
    ensures (low + 2 * rest) % 2 == low
    ensures (low + 2 * rest) / 2 == rest
  {
  }

  /** Every choice vector of length n is enumerated by some counter below 2^n. */
  lemma EveryVectorIsAMask(b: seq<bool>)
    ensures exists m :: 0 <= m < Pow2(|b|) && Bits(m, |b|) == b
  {
    var m := FromBits(b);
    assert 0 <= m < Pow2(|b|) && Bits(m, |b|) == b;
  }

  /** Below 2^n, the only mask with none of its n low bits set is 0. */
  lemma {:induction false} NoBitSetIsZero(m: nat, n: nat)
    requires m < Pow2(n)
    requires forall i :: 0 <= i < n ==> !Bit(m, i)
    ensures m == 0
  {
    if n > 0 {
      assert !Bit(m, 0);
      forall i | 0 <= i < n - 1
        ensures !Bit(m / 2, i)
      {
        assert !Bit(m, i + 1);
      }
      NoBitSetIsZero(m / 2, n - 1);
    }
  }
}
