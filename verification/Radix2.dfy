/** Signed binary numerals, least significant digit first: a digit may be any
    integer, and whatever is not yet written as digits is kept as a rest. */
module Radix2 {
  import opened Bits

  /** xs[0] + 2 * xs[1] + 4 * xs[2] + ... + 2^|xs| * rest. */
  function Horner(xs: seq<int>, rest: int): int {
    if xs == [] then rest else xs[0] + 2 * Horner(xs[1..], rest)
  }

  /** The number written by the digits alone. */
  function Value(xs: seq<int>): int {
    Horner(xs, 0)
  }

  /** Splitting one more digit off the rest changes nothing. */
  lemma {:induction false} HornerSnoc(xs: seq<int>, x: int, rest: int)
    ensures Horner(xs + [x], rest) == Horner(xs, x + 2 * rest)
  {
    if xs == [] {
      assert [x][1..] == [];
    } else {
      assert (xs + [x])[1..] == xs[1..] + [x];
      HornerSnoc(xs[1..], x, rest);
    }
  }

  function Zeros(n: nat): (zs: seq<int>)
    ensures |zs| == n
  {
    seq(n, i => 0)
  }

  /** n zero digits move the rest up by n places. */
  lemma {:induction false} HornerZeros(xs: seq<int>, n: nat, rest: int)
    ensures Horner(xs + Zeros(n), rest) == Horner(xs, Pow2(n) * rest)
  {
    if n == 0 {
      assert xs + Zeros(0) == xs;
    } else {
      hide Horner;
      assert xs + Zeros(n) == xs + Zeros(n - 1) + [0];
      HornerSnoc(xs + Zeros(n - 1), 0, rest);
      HornerZeros(xs, n - 1, 2 * rest);
      assert Pow2(n - 1) * (2 * rest) == Pow2(n) * rest;
    }
  }

  /** Digits above the last non-zero one do not count. */
  lemma TrailingZeros(xs: seq<int>, n: nat)
    ensures Value(xs + Zeros(n)) == Value(xs)
  {
    HornerZeros(xs, n, 0);
    assert Pow2(n) * 0 == 0;
  }

  lemma Pow64()
    ensures Pow2(64) == 0x1_0000_0000_0000_0000
  {
    assert Pow2(8) == 256;
    assert Pow2(16) == 65536;
    assert Pow2(24) == 0x100_0000;
    assert Pow2(32) == 0x1_0000_0000;
    assert Pow2(40) == 0x100_0000_0000;
    assert Pow2(48) == 0x1_0000_0000_0000;
    assert Pow2(56) == 0x100_0000_0000_0000;
  }
}
