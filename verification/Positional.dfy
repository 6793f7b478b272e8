/** Natural numbers in positional notation, least significant digit first, for any base. */
module Positional {

  function Pow(b: nat, e: nat): nat {
    if e == 0 then 1 else b * Pow(b, e - 1)
  }

  lemma {:induction false} PowPositive(b: nat, e: nat)
    requires b >= 1
    ensures Pow(b, e) >= 1
  {
    if e > 0 {
      PowPositive(b, e - 1);
      MulMonotone(1, b, Pow(b, e - 1));
    }
  }

  lemma {:induction false} PowAdd(b: nat, m: nat, n: nat)
    ensures Pow(b, m + n) == Pow(b, m) * Pow(b, n)
  {
    if m > 0 {
      PowAdd(b, m - 1, n);
      MulAssoc(b, Pow(b, m - 1), Pow(b, n));
    }
  }

  lemma {:induction false} PowPow(b: nat, m: nat, k: nat)
    ensures Pow(b, m * k) == Pow(Pow(b, m), k)
  {
    if k > 0 {
      PowPow(b, m, k - 1);
      assert m * k == m + m * (k - 1);
      PowAdd(b, m, m * (k - 1));
    }
  }

  lemma {:induction false} PowMonotone(b: nat, m: nat, n: nat)
    requires b >= 1 && m <= n
    ensures Pow(b, m) <= Pow(b, n)
  {
    if m < n {
      PowMonotone(b, m, n - 1);
      PowPositive(b, n - 1);
      MulMonotone(1, b, Pow(b, n - 1));
    }
  }

  lemma {:induction false} PowBaseStrict(a: nat, b: nat, k: nat)
    requires a < b && k >= 1
    ensures Pow(a, k) < Pow(b, k)
  {
    if k > 1 {
      PowBaseStrict(a, b, k - 1);
      MulStrict(a, b, Pow(a, k - 1), Pow(b, k - 1));
    } else {
      assert Pow(a, 1) == a * Pow(a, 0) && Pow(b, 1) == b * Pow(b, 0);
    }
  }

  lemma {:induction false} PowBaseMonotone(a: nat, b: nat, k: nat)
    requires a <= b
    ensures Pow(a, k) <= Pow(b, k)
  {
    if k > 0 {
      PowBaseMonotone(a, b, k - 1);
      MulBoth(a, b, Pow(a, k - 1), Pow(b, k - 1));
    }
  }

  lemma MulMonotone(a: nat, b: nat, c: nat)
    requires a <= b
    ensures a * c <= b * c
  {
  }

  lemma MulBoth(a: nat, b: nat, c: nat, d: nat)
    requires a <= b && c <= d
    ensures a * c <= b * d
  {
    MulMonotone(a, b, c);
    MulMonotone(c, d, b);
  }

  lemma MulStrict(a: nat, b: nat, c: nat, d: nat)
    requires a < b && c < d
    ensures a * c < b * d
  {
    MulMonotone(a, b, c);
    assert b * d - b * c == b * (d - c);
    MulMonotone(1, d - c, b);
  }

  lemma MulAssoc(a: nat, b: nat, c: nat)
    ensures (a * b) * c == a * (b * c)
  {
  }

  /** When p digits of base b reach q digits of base a, any m and n in at least that ratio do too. */
  lemma Capacity(a: nat, b: nat, p: nat, q: nat, m: nat, n: nat)
    requires a >= 1 && b >= 1 && q >= 1 && Pow(a, q) <= Pow(b, p)
    requires m * q >= p * n
    ensures Pow(a, n) <= Pow(b, m)
  {
    hide Pow;
    CapacityOf(a, b, p, q, m, n, m * q, p * n, n * q);
  }

  lemma CapacityOf(a: nat, b: nat, p: nat, q: nat, m: nat, n: nat, mq: nat, pn: nat, nq: nat)
    requires a >= 1 && b >= 1 && q >= 1 && Pow(a, q) <= Pow(b, p)
    requires mq == m * q && pn == p * n && nq == n * q && mq >= pn
    ensures Pow(a, n) <= Pow(b, m)
  {
    hide Pow;
    var x, y := Pow(a, n), Pow(b, m);
    assert Pow(x, q) == Pow(Pow(a, q), n) by {
      PowPow(a, n, q);
      PowPow(a, q, n);
      assert nq == q * n;
    }
    assert Pow(y, q) == Pow(b, mq) by { PowPow(b, m, q); }
    assert Pow(b, pn) == Pow(Pow(b, p), n) by { PowPow(b, p, n); }
    PowMonotone(b, pn, mq);
    PowBaseMonotone(Pow(a, q), Pow(b, p), n);
    if y < x {
      PowBaseStrict(y, x, q);
    }
  }

  // ---------------------------------------------------------------- values

  predicate Digits(base: nat, ds: seq<nat>) {
    forall i | 0 <= i < |ds| :: ds[i] < base
  }

  function Val(base: nat, ds: seq<nat>): nat {
    if ds == [] then 0 else ds[0] + base * Val(base, ds[1..])
  }

  /** The digits from len on are zero and the one before, if any, is not. */
  predicate Significant(ds: seq<nat>, len: nat) {
    && len <= |ds|
    && (forall i | len <= i < |ds| :: ds[i] == 0)
    && (len > 0 ==> ds[len - 1] != 0)
  }

  lemma {:induction false} ValBound(base: nat, ds: seq<nat>)
    requires base >= 1 && Digits(base, ds)
    ensures Val(base, ds) < Pow(base, |ds|)
  {
    if ds != [] {
      ValBound(base, ds[1..]);
      BoundStep(base, ds[0], Val(base, ds[1..]), Pow(base, |ds| - 1));
    }
  }

  lemma BoundStep(base: nat, d: nat, v: nat, p: nat)
    requires d < base && v < p
    ensures d + base * v < base * p
  {
    MulMonotone(v + 1, p, base);
  }

  lemma {:induction false} ValZero(base: nat, ds: seq<nat>)
    requires forall i | 0 <= i < |ds| :: ds[i] == 0
    ensures Val(base, ds) == 0
  {
    if ds != [] {
      ValZero(base, ds[1..]);
    }
  }

  lemma {:induction false} ValPad(base: nat, ds: seq<nat>, zs: seq<nat>)
    requires forall i | 0 <= i < |zs| :: zs[i] == 0
    ensures Val(base, ds + zs) == Val(base, ds)
  {
    if ds == [] {
      assert ds + zs == zs;
      ValZero(base, zs);
    } else {
      assert (ds + zs)[1..] == ds[1..] + zs;
      ValPad(base, ds[1..], zs);
    }
  }

  lemma {:induction false} ValConcat(base: nat, xs: seq<nat>, ys: seq<nat>)
    ensures Val(base, xs + ys) == Val(base, xs) + Pow(base, |xs|) * Val(base, ys)
  {
    if xs == [] {
      assert xs + ys == ys;
    } else {
      assert (xs + ys)[1..] == xs[1..] + ys;
      ValConcat(base, xs[1..], ys);
      ConcatStep(base, xs[0], Val(base, xs[1..]), Pow(base, |xs| - 1), Val(base, ys));
    }
  }

  lemma ConcatStep(base: nat, d: nat, v: nat, p: nat, w: nat)
    ensures d + base * (v + p * w) == d + base * v + (base * p) * w
  {
  }

  lemma ModDigit(base: nat, d: nat, v: nat)
    requires d < base
    ensures (d + base * v) % base == d && (d + base * v) / base == v
  {
    var x := d + base * v;
    var q, r := x / base, x % base;
    assert base * (q - v) == d - r && base * (v - q) == r - d;
    if q > v {
      MulMonotone(1, q - v, base);
    } else if q < v {
      MulMonotone(1, v - q, base);
    }
  }

  /** Notation without superfluous zeros is unique. */
  lemma {:induction false} Unique(base: nat, xs: seq<nat>, ys: seq<nat>)
    requires base >= 2 && Digits(base, xs) && Digits(base, ys)
    requires Significant(xs, |xs|) && Significant(ys, |ys|)
    requires Val(base, xs) == Val(base, ys)
    ensures xs == ys
    decreases |xs|
  {
    if xs == [] {
      if ys != [] {
        ValPositive(base, ys);
      }
    } else if ys == [] {
      ValPositive(base, xs);
    } else {
      ModDigit(base, xs[0], Val(base, xs[1..]));
      ModDigit(base, ys[0], Val(base, ys[1..]));
      Unique(base, xs[1..], ys[1..]);
      assert xs == [xs[0]] + xs[1..] && ys == [ys[0]] + ys[1..];
    }
  }

  lemma {:induction false} ValPositive(base: nat, xs: seq<nat>)
    requires base >= 1 && xs != [] && xs[|xs| - 1] != 0
    ensures Val(base, xs) >= 1
  {
    if |xs| > 1 {
      ValPositive(base, xs[1..]);
      MulMonotone(1, Val(base, xs[1..]), base);
    }
  }

  /** More significant digits mean a larger value. */
  lemma {:induction false} ValLength(base: nat, xs: seq<nat>)
    requires base >= 1 && xs != [] && xs[|xs| - 1] != 0
    ensures Pow(base, |xs| - 1) <= Val(base, xs)
  {
    if |xs| > 1 {
      ValLength(base, xs[1..]);
      MulMonotone(Pow(base, |xs| - 2), Val(base, xs[1..]), base);
    } else {
      ValPositive(base, xs);
    }
  }

  // ----------------------------------------------------------- multiply-add

  /** ds * mult + carry, with the last carry dropped. */
  function MulAdd(base: nat, mult: nat, ds: seq<nat>, carry: nat): (r: seq<nat>)
    requires base >= 1
    ensures |r| == |ds|
  {
    if ds == [] then []
    else
      var x := carry + mult * ds[0];
      [x % base] + MulAdd(base, mult, ds[1..], x / base)
  }

  function CarryOut(base: nat, mult: nat, ds: seq<nat>, carry: nat): nat
    requires base >= 1
  {
    if ds == [] then carry else CarryOut(base, mult, ds[1..], (carry + mult * ds[0]) / base)
  }

  lemma {:induction false} MulAddValue(base: nat, mult: nat, ds: seq<nat>, carry: nat)
    requires base >= 1
    ensures Digits(base, MulAdd(base, mult, ds, carry))
    ensures Val(base, MulAdd(base, mult, ds, carry)) + CarryOut(base, mult, ds, carry) * Pow(base, |ds|) ==
            mult * Val(base, ds) + carry
  {
    if ds != [] {
      var x := carry + mult * ds[0];
      var c, tail := x / base, ds[1..];
      MulAddValue(base, mult, tail, c);
      var v, w := Val(base, tail), Val(base, MulAdd(base, mult, tail, c));
      var k, p := CarryOut(base, mult, tail, c), Pow(base, |tail|);
      assert MulAdd(base, mult, ds, carry)[1..] == MulAdd(base, mult, tail, c);
      MulAddStep(base, mult, ds[0], carry, v, w, k, p);
    }
  }

  lemma MulAddStep(base: nat, mult: nat, d: nat, carry: nat, v: nat, w: nat, k: nat, p: nat)
    requires base >= 1 && w + k * p == mult * v + (carry + mult * d) / base
    ensures (carry + mult * d) % base + base * w + k * (base * p) == mult * (d + base * v) + carry
  {
    var x := carry + mult * d;
    calc {
      x % base + base * w + k * (base * p);
      { assert k * (base * p) == base * (k * p); }
      x % base + base * (w + k * p);
      x % base + base * (mult * v + x / base);
      x % base + base * (mult * v) + base * (x / base);
      { assert base * (x / base) + x % base == x; }
      x + base * (mult * v);
      { assert base * (mult * v) == mult * (base * v); assert mult * (d + base * v) == mult * d + mult * (base * v); }
      mult * (d + base * v) + carry;
    }
  }

  /** There is no carry left when the result fits. */
  lemma NoCarry(base: nat, mult: nat, ds: seq<nat>, carry: nat)
    requires base >= 1 && mult * Val(base, ds) + carry < Pow(base, |ds|)
    ensures CarryOut(base, mult, ds, carry) == 0
    ensures Val(base, MulAdd(base, mult, ds, carry)) == mult * Val(base, ds) + carry
  {
    MulAddValue(base, mult, ds, carry);
    if CarryOut(base, mult, ds, carry) >= 1 {
      MulMonotone(1, CarryOut(base, mult, ds, carry), Pow(base, |ds|));
    }
  }

  lemma {:induction false} MulAddZeros(base: nat, mult: nat, ds: seq<nat>)
    requires base >= 1 && forall i | 0 <= i < |ds| :: ds[i] == 0
    ensures MulAdd(base, mult, ds, 0) == ds && CarryOut(base, mult, ds, 0) == 0
  {
    if ds != [] {
      assert 0 / base == 0 && 0 % base == 0;
      assert mult * ds[0] == 0;
      MulAddZeros(base, mult, ds[1..]);
      assert ds == [0] + ds[1..];
    }
  }
}
