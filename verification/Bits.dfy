/** Bit arithmetic on natural numbers, as the hasher uses it: masks, population
    counts and rounding to powers of two. Everything recurses on the halves of a
    number, so that no variable divisor ever appears. */
module Bits {

  predicate IsPow2(p: nat) {
    p == 1 || (p > 1 && p % 2 == 0 && IsPow2(p / 2))
  }

  function Pow2(k: nat): (p: nat)
    ensures p >= 1
  {
    if k == 0 then 1 else 2 * Pow2(k - 1)
  }

  /** The largest power of two that is at most n. */
  function Floor2(n: nat): (p: nat)
    requires n >= 1
    ensures IsPow2(p) && p <= n < 2 * p
  {
    if n == 1 then 1 else 2 * Floor2(n / 2)
  }

  /** s divides c, for a power of two s. */
  predicate Aligned(c: nat, s: nat)
    requires IsPow2(s)
  {
    s == 1 || (c % 2 == 0 && Aligned(c / 2, s / 2))
  }

  /** Number of 1-bits. */
  function PopCount(c: nat): nat {
    if c == 0 then 0 else c % 2 + PopCount(c / 2)
  }

  /** Bitwise and. */
  function And(x: nat, y: nat): (r: nat)
    ensures r <= x && r <= y
  {
    if x == 0 || y == 0 then 0 else 2 * And(x / 2, y / 2) + (x % 2) * (y % 2)
  }

  /** Shifts. */
  function Shr(x: nat, k: nat): nat {
    if k == 0 then x else Shr(x / 2, k - 1)
  }

  function Shl(x: nat, k: nat): nat {
    if k == 0 then x else 2 * Shl(x, k - 1)
  }

  /** Position of the highest 1-bit. */
  function HighBit(n: nat): nat
    requires n >= 1
  {
    if n == 1 then 0 else 1 + HighBit(n / 2)
  }

  /** Bitwise or: the carries of x + y are exactly the common bits. */
  function Or(x: nat, y: nat): nat {
    x + y - And(x, y)
  }

  // ---------------------------------------------------------------- powers

  lemma {:induction false} PowIsPow2(k: nat)
    ensures IsPow2(Pow2(k))
  {
    if k > 0 {
      PowIsPow2(k - 1);
      assert (2 * Pow2(k - 1)) / 2 == Pow2(k - 1);
    }
  }

  lemma {:induction false} Pow2Unique(p: nat, q: nat, n: nat)
    requires IsPow2(p) && IsPow2(q)
    requires p <= n < 2 * p && q <= n < 2 * q
    ensures p == q
  {
    if p > 1 && q > 1 {
      Pow2Unique(p / 2, q / 2, n / 2);
    }
  }

  lemma Floor2Is(p: nat, n: nat)
    requires IsPow2(p) && p <= n < 2 * p
    ensures Floor2(n) == p
  {
    hide IsPow2, Floor2;
    Pow2Unique(p, Floor2(n), n);
  }

  lemma {:induction false} Pow2Gap(p: nat, q: nat)
    requires IsPow2(p) && IsPow2(q) && p < q
    ensures 2 * p <= q && Aligned(q, 2 * p)
  {
    if p > 1 {
      Pow2Gap(p / 2, q / 2);
    } else {
      assert Aligned(q / 2, 1);
    }
  }

  lemma Pow2Double(p: nat)
    requires IsPow2(p)
    ensures IsPow2(2 * p) && p >= 1
  {
  }

  lemma {:induction false} Pow2Monotone(a: nat, b: nat)
    requires a <= b
    ensures Pow2(a) <= Pow2(b)
  {
    if a < b {
      Pow2Monotone(a, b - 1);
    }
  }

  lemma {:induction false} Pow2Sum(a: nat, b: nat)
    ensures Pow2(a + b) == Pow2(a) * Pow2(b)
  {
    if a > 0 {
      Pow2Sum(a - 1, b);
      assert Pow2(a + b) == 2 * Pow2(a - 1 + b);
    }
  }

  // ------------------------------------------------------------- alignment

  lemma {:induction false} AlignedSelf(s: nat)
    requires IsPow2(s)
    ensures Aligned(s, s) && Aligned(0, s)
  {
    if s > 1 {
      AlignedSelf(s / 2);
    }
  }

  lemma {:induction false} AlignedWeaken(c: nat, s: nat)
    requires IsPow2(s) && Aligned(c, 2 * s)
    ensures Aligned(c, s)
  {
    if s > 1 {
      AlignedWeaken(c / 2, s / 2);
    }
  }

  /** A multiple of s below a power of two p leaves room for another s. */
  lemma {:induction false} AlignedRoom(c: nat, s: nat, p: nat)
    requires IsPow2(s) && IsPow2(p) && Aligned(c, s) && c < p && s <= p
    ensures c + s <= p
  {
    if s > 1 {
      AlignedRoom(c / 2, s / 2, p / 2);
    }
  }

  /** A nonzero multiple is at least s, so is its leading power of two, and the rest stays a multiple. */
  lemma {:induction false} AlignedFloor(c: nat, s: nat)
    requires IsPow2(s) && Aligned(c, s) && c >= 1
    ensures s <= Floor2(c) && Aligned(c - Floor2(c), s) && Aligned(Floor2(c), s)
  {
    if s > 1 {
      AlignedFloor(c / 2, s / 2);
      assert Floor2(c) == 2 * Floor2(c / 2);
      assert (c - Floor2(c)) / 2 == c / 2 - Floor2(c / 2);
    }
  }

  lemma {:induction false} AlignedSum(c: nat, d: nat, s: nat)
    requires IsPow2(s) && Aligned(c, s)
    ensures Aligned(c + d, s) <==> Aligned(d, s)
  {
    if s > 1 {
      AlignedSum(c / 2, d / 2, s / 2);
      if d % 2 == 0 {
        assert (c + d) / 2 == c / 2 + d / 2;
      }
    }
  }

  /** An odd multiple of s becomes a multiple of 2s when another s is added or taken away. */
  lemma {:induction false} AlignedNext(c: nat, s: nat)
    requires IsPow2(s) && Aligned(c, s) && !Aligned(c, 2 * s)
    ensures c >= s && Aligned(c - s, 2 * s) && Aligned(c + s, 2 * s)
  {
    assert 2 * s / 2 == s;
    if s > 1 {
      assert Aligned(c, 2 * s) == (c % 2 == 0 && Aligned(c / 2, s));
      AlignedNext(c / 2, s / 2);
      assert (c - s) / 2 == c / 2 - s / 2;
      assert (c + s) / 2 == c / 2 + s / 2;
    }
  }

  lemma AlignedDouble(c: nat, s: nat)
    requires IsPow2(s)
    ensures IsPow2(2 * s) && (Aligned(2 * c, 2 * s) <==> Aligned(c, s))
  {
    assert 2 * s / 2 == s && 2 * c / 2 == c;
  }

  /** Counting in chunks of 1024 bytes instead of bytes does not change alignment. */
  lemma AlignedKilo(c: nat, s: nat)
    requires IsPow2(s)
    ensures IsPow2(1024 * s) && (Aligned(1024 * c, 1024 * s) <==> Aligned(c, s))
  {
    hide IsPow2, Aligned;
    AlignedDouble(c, s);
    AlignedDouble(2 * c, 2 * s);
    AlignedDouble(4 * c, 4 * s);
    AlignedDouble(8 * c, 8 * s);
    AlignedDouble(16 * c, 16 * s);
    AlignedDouble(32 * c, 32 * s);
    AlignedDouble(64 * c, 64 * s);
    AlignedDouble(128 * c, 128 * s);
    AlignedDouble(256 * c, 256 * s);
    AlignedDouble(512 * c, 512 * s);
  }

  /** A power of two from 1024 on is 1024 times a power of two. */
  lemma {:induction false} Pow2Quotient(p: nat, d: nat) returns (k: nat)
    requires IsPow2(p) && IsPow2(d) && d <= p
    ensures IsPow2(k) && p == d * k
  {
    if d == 1 {
      k := p;
    } else {
      k := Pow2Quotient(p / 2, d / 2);
    }
  }

  // ------------------------------------------------------ population counts

  lemma {:induction false} PopCountFloor(c: nat)
    requires c >= 1
    ensures PopCount(c) == 1 + PopCount(c - Floor2(c))
  {
    if c > 1 {
      PopCountFloor(c / 2);
      assert (c - Floor2(c)) / 2 == c / 2 - Floor2(c / 2);
      assert (c - Floor2(c)) % 2 == c % 2;
    }
  }

  /** Adding s to a multiple of s creates a new 1-bit exactly when the multiple is even. */
  lemma {:induction false} PopCountAdd(c: nat, s: nat)
    requires IsPow2(s) && Aligned(c, s)
    ensures IsPow2(2 * s)
    ensures Aligned(c, 2 * s) ==> PopCount(c + s) == PopCount(c) + 1
    ensures !Aligned(c, 2 * s) ==> PopCount(c + s) <= PopCount(c)
  {
    assert (2 * s) / 2 == s;
    if s == 1 {
      AddOneBit(c);
    } else {
      var a, t := c / 2, s / 2;
      assert c == 2 * a && s == 2 * t;
      PopCountAdd(a, t);
      PopCountDouble(a);
      PopCountDouble(a + t);
      AlignedDouble(a, 2 * t);
      hide Aligned, PopCount, IsPow2;
    }
  }

  lemma AddOneBit(c: nat)
    ensures Aligned(c, 2) ==> PopCount(c + 1) == PopCount(c) + 1
    ensures !Aligned(c, 2) ==> PopCount(c + 1) <= PopCount(c)
  {
    if c % 2 == 0 {
      assert Aligned(c / 2, 1);
      assert (c + 1) / 2 == c / 2;
    } else {
      PopCountInc(c / 2);
      assert (c + 1) / 2 == c / 2 + 1;
    }
  }

  lemma {:induction false} PopCountInc(c: nat)
    ensures PopCount(c + 1) <= PopCount(c) + 1
  {
    if c % 2 == 1 {
      PopCountInc(c / 2);
      assert (c + 1) / 2 == c / 2 + 1;
    } else {
      assert (c + 1) / 2 == c / 2;
    }
  }

  lemma {:induction false} PopCountBound(c: nat, k: nat)
    requires c < Pow2(k)
    ensures PopCount(c) <= k
  {
    if c > 0 {
      PopCountBound(c / 2, k - 1);
    }
  }

  // ------------------------------------------------------------------ masks

  /** The bit mask s - 1 tests divisibility by s. */
  lemma {:induction false} MaskTestsAlignment(s: nat, c: nat)
    requires IsPow2(s)
    ensures And(s - 1, c) == 0 <==> Aligned(c, s)
  {
    if s > 1 {
      MaskTestsAlignment(s / 2, c / 2);
      assert (s - 1) / 2 == s / 2 - 1 && (s - 1) % 2 == 1;
      if c == 0 {
        AlignedSelf(s);
      } else if s > 2 || c % 2 == 1 {
      }
    }
  }

  /** x & (x - 1) clears exactly one bit. */
  lemma {:induction false} ClearLowestBit(x: nat)
    requires x > 0
    ensures And(x, x - 1) < x
    ensures PopCount(And(x, x - 1)) == PopCount(x) - 1
  {
    if x % 2 == 0 {
      ClearLowestBit(x / 2);
      var y := And(x / 2, x / 2 - 1);
      AndDouble(x - 1, x / 2);
      AndCommutes(x, x - 1);
      AndCommutes(x / 2, x / 2 - 1);
      PopCountDouble(y);
      PopCountDouble(x / 2);
      hide And, PopCount;
      HalfBefore(x);
    } else {
      AndSelf(x / 2);
      assert (x - 1) / 2 == x / 2;
      if x > 1 {
        assert And(x, x - 1) == 2 * And(x / 2, x / 2) + 0;
      }
    }
  }

  lemma HalfBefore(x: nat)
    requires x > 0 && x % 2 == 0
    ensures 2 * (x / 2) == x && (x - 1) / 2 == x / 2 - 1
  {
  }

  lemma PopCountDouble(y: nat)
    ensures PopCount(2 * y) == PopCount(y)
  {
    assert (2 * y) / 2 == y;
  }

  lemma {:induction false} AndCommutes(x: nat, y: nat)
    ensures And(x, y) == And(y, x)
  {
    if x > 0 && y > 0 {
      AndCommutes(x / 2, y / 2);
      MulCommutes(x % 2, y % 2);
    }
  }

  lemma MulCommutes(x: nat, y: nat)
    ensures x * y == y * x
  {
  }

  lemma {:induction false} AndSelf(x: nat)
    ensures And(x, x) == x
  {
    if x > 0 {
      AndSelf(x / 2);
      assert (x % 2) * (x % 2) == x % 2;
    }
  }

  lemma {:induction false} AndShl(x: nat, m: nat, k: nat)
    ensures And(x, Shl(m, k)) == Shl(And(Shr(x, k), m), k)
  {
    if k > 0 {
      AndShl(x / 2, m, k - 1);
      hide And;
      AndDouble(x, Shl(m, k - 1));
    }
  }

  lemma AndDouble(x: nat, y: nat)
    ensures And(x, 2 * y) == 2 * And(x / 2, y)
  {
    assert (2 * y) / 2 == y && (2 * y) % 2 == 0;
  }

  lemma {:induction false} ShlZero(k: nat)
    ensures Shl(0, k) == 0 && Shr(0, k) == 0
  {
    if k > 0 {
      ShlZero(k - 1);
    }
  }

  lemma {:induction false} ShlPositive(v: nat, k: nat)
    requires v > 0
    ensures Shl(v, k) > 0
  {
    if k > 0 {
      ShlPositive(v, k - 1);
    }
  }

  lemma {:induction false} LowMask(x: nat, j: nat)
    requires x < Pow2(j)
    ensures And(x, Pow2(j) - 1) == x
  {
    if x > 0 {
      LowMask(x / 2, j - 1);
      assert (Pow2(j) - 1) / 2 == Pow2(j - 1) - 1 && (Pow2(j) - 1) % 2 == 1;
    }
  }

  lemma {:induction false} ShrBound(x: nat, k: nat, j: nat)
    requires x < Pow2(k + j)
    ensures Shr(x, k) < Pow2(j)
  {
    if k > 0 {
      ShrBound(x / 2, k - 1, j);
    }
  }

  /** A mask of k ones above k zeros shows whether a number of 2k bits survives a shift by k. */
  lemma HighMask(x: nat, k: nat)
    requires x < Pow2(k + k)
    ensures And(x, Shl(Pow2(k) - 1, k)) != 0 <==> Shr(x, k) >= 1
    ensures Shr(x, k) < Pow2(k)
    ensures Shr(x, k) == 0 ==> x < Pow2(k)
  {
    ShrBound(x, k, k);
    AndShl(x, Pow2(k) - 1, k);
    LowMask(Shr(x, k), k);
    ShlZero(k);
    if Shr(x, k) >= 1 {
      ShlPositive(Shr(x, k), k);
    } else {
      ShrLoses(x, k);
    }
  }

  lemma {:induction false} ShrLoses(x: nat, k: nat)
    requires Shr(x, k) == 0
    ensures x < Pow2(k)
  {
    if k > 0 {
      ShrLoses(x / 2, k - 1);
    }
  }

  lemma {:induction false} HighBitShr(x: nat, k: nat)
    requires Shr(x, k) >= 1
    ensures x >= 1 && HighBit(x) == k + HighBit(Shr(x, k))
  {
    if k > 0 {
      HighBitShr(x / 2, k - 1);
    }
  }

  lemma {:induction false} HighBitFloor(n: nat)
    requires n >= 1
    ensures Pow2(HighBit(n)) == Floor2(n)
  {
    if n > 1 {
      HighBitFloor(n / 2);
    }
  }

  /** Masks are the C literals 0xffffffff00000000, 0xffff0000, 0xff00, 0xf0, 0xc and 0x2. */
  function Mask(k: nat): nat {
    Shl(Pow2(k) - 1, k)
  }

  /** One conditional shift: `if(x & mask) { x >>= k; c += k; }`. */
  method SearchStep(x: nat, c: nat, k: nat) returns (x': nat, c': nat)
    requires 1 <= x < Pow2(2 * k)
    ensures 1 <= x' < Pow2(k)
    ensures c' + HighBit(x') == c + HighBit(x)
  {
    hide Pow2, Shr, And, HighBit;
    HighMask(x, k);
    x', c' := x, c;
    if And(x, Mask(k)) != 0 {
      HighBitShr(x, k);
      x', c' := Shr(x, k), c + k;
    }
  }

  /** Index of the highest set bit, by six conditional shifts. */
  method HighestOne(x0: nat) returns (c: nat)
    requires 1 <= x0 < Pow2(64)
    ensures Pow2(c) == Floor2(x0)
  {
    hide Shr, And, Floor2, IsPow2;
    var x := x0;
    c := 0;
    x, c := SearchStep(x, c, 32);
    x, c := SearchStep(x, c, 16);
    x, c := SearchStep(x, c, 8);
    x, c := SearchStep(x, c, 4);
    x, c := SearchStep(x, c, 2);
    x, c := SearchStep(x, c, 1);
    HighBitFloor(x0);
  }

  /** Counts the 1-bits by clearing them one at a time. */
  method PopCnt(x0: nat) returns (count: nat)
    ensures count == PopCount(x0)
  {
    var x := x0;
    count := 0;
    while x != 0
      invariant count + PopCount(x) == PopCount(x0)
      decreases x
    {
      ClearLowestBit(x);
      count := count + 1;
      x := And(x, x - 1);
    }
  }

  lemma OrOne(x: nat)
    requires x < Pow2(64)
    ensures 1 <= Or(x, 1) < Pow2(64)
    ensures Floor2(Or(x, 1)) == if x == 0 then 1 else Floor2(x)
  {
    assert Pow2(64) == 2 * Pow2(63);
    assert x > 0 ==> And(x, 1) == x % 2 by {
      assert And(x / 2, 0) == 0;
    }
    hide And, Pow2;
    if x > 1 {
      assert Or(x, 1) / 2 == x / 2;
    }
  }

  /** Largest power of two that is at most x; 1 when x is 0. */
  method RoundDownToPowerOf2(x: nat) returns (p: nat)
    requires x < Pow2(64)
    ensures p == if x == 0 then 1 else Floor2(x)
  {
    OrOne(x);
    var h := HighestOne(Or(x, 1));
    p := Pow2(h);
  }
}
