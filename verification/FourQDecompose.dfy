/** Decomposition of a 256-bit scalar into four 64-bit sub-scalars: truncated multiplication,
    rounding in a lattice, and the parity correction. */
module FourQDecompose {
  import opened Group
  import opened Words
  import opened FourQOrder

  // ------------------------------------------------- truncated multiplication

  /** 128-bit arithmetic wraps. */
  function Wrap128(x: nat): nat {
    x % B2
  }

  lemma CarryTwo(x: nat, y: nat)
    ensures High(x) + High(y) + High(Low(x) + Low(y)) == High(x + y)
  {
  }

  lemma CarryThree(x: nat, y: nat, z: nat)
    ensures High(x) + High(y) + High(z) + High(Low(x) + Low(y) + Low(z)) == High(x + y + z)
  {
  }

  lemma CarryFour(x: nat, y: nat, z: nat, u: nat)
    ensures High(x) + High(y) + High(z) + High(u) + High(Low(x) + Low(y) + Low(z) + Low(u)) == High(x + y + z + u)
  {
  }

  /** Losing what is above 128 bits does not touch the next 64. */
  lemma WrapHigh(x: nat, y: nat)
    ensures Low(High(Wrap128(x) + y)) == Low(High(x + y))
  {
    var q := x / B2;
    assert x == q * B2 + Wrap128(x);
    assert High(x + y) == q * U64 + High(Wrap128(x) + y);
  }

  /** The sums of products in the columns of a product of two 256-bit numbers. */
  function Column(s: seq<Word>, c: seq<Word>, n: nat): nat
    requires |s| == |c| == 4
  {
    if n == 0 then Product(s[0], c[0])
    else if n == 1 then Product(s[1], c[0]) + Product(s[0], c[1])
    else if n == 2 then Product(s[2], c[0]) + Product(s[0], c[2]) + Product(s[1], c[1])
    else if n == 3 then Product(s[0], c[3]) + Product(s[3], c[0]) + Product(s[1], c[2]) + Product(s[2], c[1])
    else if n == 4 then Product(s[1], c[3]) + Product(s[3], c[1]) + Product(s[2], c[2])
    else if n == 5 then Product(s[2], c[3]) + Product(s[3], c[2])
    else Product(s[3], c[3])
  }

  /** Column n together with the carry from the columns below. */
  function Carried(s: seq<Word>, c: seq<Word>, n: nat): nat
    requires |s| == |c| == 4
  {
    if n == 0 then Column(s, c, 0) else High(Carried(s, c, n - 1)) + Column(s, c, n)
  }

  /** The fifth word of the product, computed column by column in 128-bit arithmetic. */
  method MulTruncate(s: seq<Word>, c: seq<Word>) returns (out: Word)
    requires |s| == |c| == 4
    ensures out == Low(Wide(s) * Wide(c) / B4)
  {
    hide Wrap128, Low, High, Product, Wide;
    Columns(s, c);
    CarriedSteps(s, c);
    var p00, p10, p01 := Product(s[0], c[0]), Product(s[1], c[0]), Product(s[0], c[1]);
    FirstFits(p10, p00);
    var tt1 := Wrap128(p10 + High(p00));
    var carry := High(Low(tt1) + Low(p01));
    CarryTwo(tt1, p01);
    tt1 := High(tt1) + High(p01) + carry;
    var p20, p02, p11 := Product(s[2], c[0]), Product(s[0], c[2]), Product(s[1], c[1]);
    SecondFits(tt1, p10 + High(p00), p01, p20);
    tt1 := Wrap128(tt1 + p20);
    carry := High(Low(tt1) + Low(p02) + Low(p11));
    CarryThree(tt1, p02, p11);
    tt1 := High(tt1) + High(p02) + High(p11) + carry;
    assert tt1 == High(Carried(s, c, 2));
    out := UpperColumns(s, c, tt1);
  }

  method UpperColumns(s: seq<Word>, c: seq<Word>, carried: nat) returns (out: Word)
    requires |s| == |c| == 4 && carried == High(Carried(s, c, 2))
    ensures out == Low(Carried(s, c, 4))
  {
    hide Wrap128, High, Product;
    CarriedSteps(s, c);
    var p03, p30, p12, p21 := Product(s[0], c[3]), Product(s[3], c[0]), Product(s[1], c[2]), Product(s[2], c[1]);
    WrapHigh(carried + p03, p30 + p12 + p21);
    var tt1 := Wrap128(carried + p03);
    var carry := High(Low(tt1) + Low(p30) + Low(p12) + Low(p21));
    CarryFour(tt1, p30, p12, p21);
    tt1 := High(tt1) + High(p30) + High(p12) + High(p21) + carry;
    assert Low(tt1) == Low(High(Carried(s, c, 3)));
    var p13, p31, p22 := Product(s[1], c[3]), Product(s[3], c[1]), Product(s[2], c[2]);
    WrapLow(tt1, High(Carried(s, c, 3)), p13 + p31 + p22);
    tt1 := Wrap128(tt1 + p13 + p31 + p22);
    out := Low(tt1);
  }

  lemma CarriedSteps(s: seq<Word>, c: seq<Word>)
    requires |s| == |c| == 4
    ensures Carried(s, c, 0) == Column(s, c, 0) && Carried(s, c, 1) == High(Carried(s, c, 0)) + Column(s, c, 1)
    ensures Carried(s, c, 2) == High(Carried(s, c, 1)) + Column(s, c, 2)
    ensures Carried(s, c, 3) == High(Carried(s, c, 2)) + Column(s, c, 3)
    ensures Carried(s, c, 4) == High(Carried(s, c, 3)) + Column(s, c, 4)
  {
    hide Column, High;
  }

  lemma FirstFits(p: nat, q: nat)
    requires p <= TOP && q <= TOP
    ensures Wrap128(p + High(q)) == p + High(q) < B2
  {
  }

  lemma SecondFits(t: nat, x: nat, y: nat, p: nat)
    requires x < B2 && y <= TOP && t == High(x + y)
    requires p <= TOP
    ensures Wrap128(t + p) == t + p
  {
  }

  lemma WrapLow(t: nat, u: nat, p: nat)
    requires Low(t) == Low(u)
    ensures Low(Wrap128(t + p)) == Low(u + p)
  {
    LowWrap(t + p);
    LowSum(t, p);
    LowSum(u, p);
  }

  lemma LowWrap(x: nat)
    ensures Low(Wrap128(x)) == Low(x)
  {
    var q := x / B2;
    assert x == U64 * (U64 * q) + Wrap128(x);
  }

  lemma LowSum(x: nat, y: nat)
    ensures Low(x + y) == Low(Low(x) + y)
  {
    assert x == U64 * (x / U64) + Low(x);
  }

  /** The columns are those of the whole product. */
  lemma Columns(s: seq<Word>, c: seq<Word>)
    requires |s| == |c| == 4
    ensures Low(Carried(s, c, 4)) == Low(Wide(s) * Wide(c) / B4)
  {
    hide Low, High, Column, Wide;
    ProductColumns(s, c);
    CarriedSteps(s, c);
    LowColumns(Wide(s) * Wide(c), Column(s, c, 0), Column(s, c, 1), Column(s, c, 2), Column(s, c, 3), Column(s, c, 4),
               Column(s, c, 5) + U64 * Column(s, c, 6));
  }

  lemma LowColumns(n: nat, s0: nat, s1: nat, s2: nat, s3: nat, s4: nat, rest: nat)
    requires n == s0 + U64 * s1 + B2 * s2 + B3 * s3 + B4 * (s4 + U64 * rest)
    ensures Low(n / B4) == Low(High(High(High(High(s0) + s1) + s2) + s3) + s4)
  {
    var t1 := High(s0) + s1;
    var t2 := High(t1) + s2;
    var t3 := High(t2) + s3;
    Split(s0);
    Split(t1);
    Split(t2);
    Split(t3);
    hide Low, High;
    var low := Low(s0) + U64 * Low(t1) + B2 * Low(t2) + B3 * Low(t3);
    Quotient(n, low, High(t3) + s4 + U64 * rest);
    LowMultiple(High(t3) + s4, rest);
  }

  lemma Split(x: nat)
    ensures x == U64 * High(x) + Low(x) && Low(x) < U64
  {
  }

  lemma Quotient(n: nat, low: nat, q: nat)
    requires low < B4 && n == low + B4 * q
    ensures n / B4 == q
  {
  }

  lemma LowMultiple(x: nat, m: nat)
    ensures Low(x + U64 * m) == Low(x)
  {
  }

  /** The product of two four-word numbers, by columns. */
  lemma ProductColumns(s: seq<Word>, c: seq<Word>)
    requires |s| == |c| == 4
    ensures Wide(s) * Wide(c) ==
      Column(s, c, 0) + U64 * Column(s, c, 1) + B2 * Column(s, c, 2) + B3 * Column(s, c, 3)
      + B4 * (Column(s, c, 4) + U64 * (Column(s, c, 5) + U64 * Column(s, c, 6)))
  {
    WordTimes(s[0], c);
    WordTimes(s[1], c);
    WordTimes(s[2], c);
    WordTimes(s[3], c);
    SumTimes(s[0], s[1], s[2], s[3], Wide(c));
    assert Wide(s) == s[0] + U64 * s[1] + B2 * s[2] + B3 * s[3];
    hide Times64, Wide;
    assert Times64(Wide(s), Wide(c)) == Wide(s) * Wide(c) by {
      TimesIs(Wide(s), Wide(c));
    }
  }

  lemma TimesIs(x: nat, y: nat)
    ensures Times64(x, y) == x * y
  {
  }

  lemma WordTimes(x: nat, c: seq<Word>)
    requires |c| == 4
    ensures Times64(x, Wide(c)) ==
            Times64(x, c[0]) + U64 * Times64(x, c[1]) + B2 * Times64(x, c[2]) + B3 * Times64(x, c[3])
  {
    Distribute(x, c[0], c[1], c[2], c[3]);
  }

  lemma Distribute(x: nat, a: nat, b: nat, c: nat, d: nat)
    ensures x * (a + U64 * b + B2 * c + B3 * d) == x * a + U64 * (x * b) + B2 * (x * c) + B3 * (x * d)
  {
  }

  lemma SumTimes(a: nat, b: nat, c: nat, d: nat, w: nat)
    ensures Times64(a + U64 * b + B2 * c + B3 * d, w) ==
            Times64(a, w) + U64 * Times64(b, w) + B2 * Times64(c, w) + B3 * Times64(d, w)
  {
    Distribute(w, a, b, c, d);
  }

  // ------------------------------------------------------------------ lattice

  const C1: nat := 0x72482C5251A4559C
  const C2: nat := 0x59F95B0ADD276F6C
  const C3: nat := 0x7DD2D17C4625FA78
  const C4: nat := 0x6BC57DEF56CE8877
  const B11: int := 0x0906FF27E0A0A196
  const B12: int := 0x1363E862C22A2DA0
  const B13: int := 0x07426031ECC8030F
  const B14: int := 0x084F739986B9E651
  const B21: int := 0x1D495BEA84FCC2D4
  const B24: int := 0x25DBC5BC8DD167D0
  const B31: int := 0x17ABAD1D231F0302
  const B32: int := 0x02C4211AE388DA51
  const B33: int := 0x2E4D21C98927C49F
  const B34: int := 0x0A9E6F44C02ECD97
  const B41: int := 0x136E340A9108C83F
  const B42: int := 0x3122DF2DC3E0FF32
  const B43: int := 0x068A49F02AA8A9B5
  const B44: int := 0x18D5087896DE0AEA

  function Ell(i: nat): (e: seq<Word>)
    ensures |e| == 4
  {
    if i == 1 then [0x259686E09D1A7D4F, 0xF75682ACE6A6BD66, 0xFC5BB5C5EA2BE5DF, 0x07]
    else if i == 2 then [0xD1BA1D84DD627AFB, 0x2BD235580F468D8D, 0x8FD4B04CAA6C0F8A, 0x03]
    else if i == 3 then [0x9B291A33678C203C, 0xC42BD6C965DCA902, 0xD038BF8D0BFFBAF6, 0x00]
    else [0x12E5666B77E7FDC0, 0x81CBDC3714983D82, 0x1B073877A22D8410, 0x03]
  }

  /** The four basis vectors of the lattice, as the sub-scalars use them. */
  function LatticeVector(i: nat): (v: seq<int>)
    ensures |v| == 4
  {
    if i == 1 then [B11, -B12, B13, -B14]
    else if i == 2 then [B21, -1, 1, B24]
    else if i == 3 then [B31, B32, -B33, B34]
    else [B41, B42, -B43, -B44]
  }

  /** The coordinates of k in the lattice, rounded down. */
  function Rounded(k: nat, i: nat): nat {
    k * Wide(Ell(i)) / B4
  }

  /** k minus a combination of the basis vectors, plus the offset. */
  function Combined(k: int, a1: int, a2: int, a3: int, a4: int): (t: seq<int>)
    ensures |t| == 4
  {
    [k - a1 * B11 - a2 * B21 - a3 * B31 - a4 * B41 + C1,
     a1 * B12 + a2 - a3 * B32 - a4 * B42 + C2,
     a3 * B33 - a1 * B13 - a2 + a4 * B43 + C3,
     a1 * B14 - a2 * B24 - a3 * B34 + a4 * B44 + C4]
  }

  /** k minus the lattice vector next to it, plus the offset. */
  function Vector(k: nat): (t: seq<int>)
    ensures |t| == 4
  {
    Combined(k, Rounded(k, 1), Rounded(k, 2), Rounded(k, 3), Rounded(k, 4))
  }

  // The multipliers as numbers.
  const L1: nat := 0x7FC5BB5C5EA2BE5DFF75682ACE6A6BD66259686E09D1A7D4F
  const L2: nat := 0x38FD4B04CAA6C0F8A2BD235580F468D8DD1BA1D84DD627AFB
  const L3: nat := 0xD038BF8D0BFFBAF6C42BD6C965DCA9029B291A33678C203C
  const L4: nat := 0x31B073877A22D841081CBDC3714983D8212E5666B77E7FDC0

  function Multiplier(i: nat): nat {
    if i == 1 then L1 else if i == 2 then L2 else if i == 3 then L3 else L4
  }

  lemma MultiplierIs(i: nat)
    ensures Wide(Ell(i)) == Multiplier(i)
  {
  }

  /** How far k * L_i is above the rounded multiple of 2^256. */
  function Remainder(k: nat, i: nat): (f: nat)
    ensures k * Multiplier(i) == B4 * Rounded(k, i) + f && f < B4
  {
    MultiplierIs(i);
    RemainderBound(k * Multiplier(i));
    (k * Multiplier(i)) % B4
  }

  lemma RemainderBound(n: nat)
    ensures n == B4 * (n / B4) + n % B4 && n % B4 < B4
  {
  }

  /** Four words, before and after a move along the last basis vector. */
  predicate Movable(t: seq<int>)
    requires |t| == 4
  {
    && 0 <= t[0] && t[0] + B41 < U64 && 0 <= t[1] && t[1] + B42 < U64
    && B43 <= t[2] < U64 && B44 <= t[3] < U64
  }

  /** For every 256-bit k the four coordinates fit their words, whatever the parity. */
  lemma VectorFits(k: nat)
    requires k < B4
    ensures Movable(Vector(k))
  {
    var a1, a2, a3, a4 := Rounded(k, 1), Rounded(k, 2), Rounded(k, 3), Rounded(k, 4);
    var f1, f2, f3, f4 := Remainder(k, 1), Remainder(k, 2), Remainder(k, 3), Remainder(k, 4);
    assert Remainders(k, a1, a2, a3, a4, f1, f2, f3, f4);
    hide Rounded, Remainder, Multiplier, Combined, Remainders;
    CombinedFits(k, a1, a2, a3, a4, f1, f2, f3, f4);
  }

  /** The remainders of the four roundings. */
  predicate Remainders(k: nat, a1: nat, a2: nat, a3: nat, a4: nat, f1: nat, f2: nat, f3: nat, f4: nat) {
    && k < B4 && f1 < B4 && f2 < B4 && f3 < B4 && f4 < B4
    && k * L1 == B4 * a1 + f1 && k * L2 == B4 * a2 + f2 && k * L3 == B4 * a3 + f3 && k * L4 == B4 * a4 + f4
  }

  lemma CombinedFits(k: nat, a1: nat, a2: nat, a3: nat, a4: nat, f1: nat, f2: nat, f3: nat, f4: nat)
    requires Remainders(k, a1, a2, a3, a4, f1, f2, f3, f4)
    ensures Movable(Combined(k, a1, a2, a3, a4))
  {
    hide Remainders;
    var t := Combined(k, a1, a2, a3, a4);
    FirstFitsWord(k, a1, a2, a3, a4, f1, f2, f3, f4, t[0]);
    SecondFitsWord(k, a1, a2, a3, a4, f1, f2, f3, f4, t[1]);
    ThirdFitsWord(k, a1, a2, a3, a4, f1, f2, f3, f4, t[2]);
    FourthFitsWord(k, a1, a2, a3, a4, f1, f2, f3, f4, t[3]);
  }

  lemma FirstFitsWord(k: nat, a1: nat, a2: nat, a3: nat, a4: nat, f1: nat, f2: nat, f3: nat, f4: nat, t: int)
    requires Remainders(k, a1, a2, a3, a4, f1, f2, f3, f4)
    requires t == k - a1 * B11 - a2 * B21 - a3 * B31 - a4 * B41 + C1
    ensures 0 <= t && t + B41 < U64
  {
    assert B4 * t == 0x315296269657022 * k + f1 * B11 + f2 * B21 + f3 * B31 + f4 * B41 + B4 * C1;
  }

  lemma SecondFitsWord(k: nat, a1: nat, a2: nat, a3: nat, a4: nat, f1: nat, f2: nat, f3: nat, f4: nat, t: int)
    requires Remainders(k, a1, a2, a3, a4, f1, f2, f3, f4)
    requires t == a1 * B12 + a2 - a3 * B32 - a4 * B42 + C2
    ensures 0 <= t && t + B42 < U64
  {
    assert B4 * t == B4 * C2 - 0x69B8FF310CD6B21 * k - f1 * B12 - f2 + f3 * B32 + f4 * B42;
  }

  lemma ThirdFitsWord(k: nat, a1: nat, a2: nat, a3: nat, a4: nat, f1: nat, f2: nat, f3: nat, f4: nat, t: int)
    requires Remainders(k, a1, a2, a3, a4, f1, f2, f3, f4)
    requires t == a3 * B33 - a1 * B13 - a2 + a4 * B43 + C3
    ensures B43 <= t < U64
  {
    assert B4 * t == B4 * C3 - 0x4743AED89BBA198 * k + f1 * B13 + f2 - f3 * B33 - f4 * B43;
  }

  lemma FourthFitsWord(k: nat, a1: nat, a2: nat, a3: nat, a4: nat, f1: nat, f2: nat, f3: nat, f4: nat, t: int)
    requires Remainders(k, a1, a2, a3, a4, f1, f2, f3, f4)
    requires t == a1 * B14 - a2 * B24 - a3 * B34 + a4 * B44 + C4
    ensures B44 <= t < U64
  {
    assert B4 * t == 0x19E424EC66DC192B * k - f1 * B14 + f2 * B24 + f3 * B34 - f4 * B44 + B4 * C4;
  }

  // -------------------------------------------------------------- subscalars

  /** The four words, moved along the last basis vector if the first one is even. */
  function Corrected(t: seq<Word>): (s: seq<Word>)
    requires |t| == 4
    ensures |s| == 4 && s[0] % 2 == 1
  {
    if t[0] % 2 == 1 then t
    else [Add64(t[0], B41), Add64(t[1], B42), Sub64(t[2], B43), Sub64(t[3], B44)]
  }

  method CorrectParity(t: seq<Word>) returns (scalars: array<Word>)
    requires |t| == 4
    ensures fresh(scalars) && scalars.Length == 4
    ensures scalars[..] == Corrected(t)
  {
    var even := t[0] % 2 == 0;
    scalars := new Word[4](_ => 0);
    scalars[0] := if even then Add64(t[0], B41) else t[0];
    scalars[1] := if even then Add64(t[1], B42) else t[1];
    scalars[2] := if even then Sub64(t[2], B43) else t[2];
    scalars[3] := if even then Sub64(t[3], B44) else t[3];
  }

  lemma CorrectedIs(t: seq<Word>)
    requires |t| == 4 && Movable(t)
    ensures Corrected(t) == if t[0] % 2 == 1 then t else Plus(t, Times(1, LatticeVector(4)))
  {
  }

  /** Correcting the parity keeps the combination. */
  lemma ParityKept<P(!new)>(g: Group<P>, t: seq<Word>, ps: seq<P>)
    requires Abelian(g) && |t| == |ps| == 4 && Movable(t)
    requires Comb(g, LatticeVector(4), ps) == g.zero
    ensures Comb(g, Corrected(t), ps) == Comb(g, t, ps)
  {
    hide Abelian, Comb;
    CorrectedIs(t);
    CombShift(g, t, 1, LatticeVector(4), ps);
  }

  function InWords(t: seq<int>): (w: seq<Word>)
    requires |t| == 4 && Movable(t)
    ensures w == t
  {
    t
  }

  /** The sub-scalars of k, exact: nothing is lost to 64-bit wrapping. */
  function Subscalars(k: nat): (s: seq<Word>)
    requires k < B4
    ensures |s| == 4 && s[0] % 2 == 1
  {
    VectorFits(k);
    Corrected(InWords(Vector(k)))
  }

  /** A multiple of 2^64 more or less does not show in a word. */
  lemma WrapShift(x: int, n: int, t: int)
    requires t == x + U64 * n && 0 <= t < U64
    ensures x % U64 == t
  {
  }

  /** Words in place of the numbers they are the low part of. */
  lemma CombinedShift(k: int, a1: int, a2: int, a3: int, a4: int, h: int, h1: int, h2: int, h3: int, h4: int)
    ensures var t := Combined(k, a1, a2, a3, a4);
            var u := Combined(k + U64 * h, a1 + U64 * h1, a2 + U64 * h2, a3 + U64 * h3, a4 + U64 * h4);
            && u[0] == t[0] + U64 * (h - h1 * B11 - h2 * B21 - h3 * B31 - h4 * B41)
            && u[1] == t[1] + U64 * (h1 * B12 + h2 - h3 * B32 - h4 * B42)
            && u[2] == t[2] + U64 * (h3 * B33 - h1 * B13 - h2 + h4 * B43)
            && u[3] == t[3] + U64 * (h1 * B14 - h2 * B24 - h3 * B34 + h4 * B44)
  {
  }

  /** The four words of t modulo 2^64. */
  function Wrapped(t: seq<int>): (w: seq<Word>)
    requires |t| == 4
    ensures |w| == 4
  {
    [t[0] % U64, t[1] % U64, t[2] % U64, t[3] % U64]
  }

  lemma CombinedWraps(k: int, a1: int, a2: int, a3: int, a4: int, h: int, h1: int, h2: int, h3: int, h4: int)
    requires var u := Combined(k + U64 * h, a1 + U64 * h1, a2 + U64 * h2, a3 + U64 * h3, a4 + U64 * h4);
             forall j | 0 <= j < 4 :: 0 <= u[j] < U64
    ensures Wrapped(Combined(k, a1, a2, a3, a4)) ==
            Combined(k + U64 * h, a1 + U64 * h1, a2 + U64 * h2, a3 + U64 * h3, a4 + U64 * h4)
  {
    CombinedShift(k, a1, a2, a3, a4, h, h1, h2, h3, h4);
    hide Combined;
    var t := Combined(k, a1, a2, a3, a4);
    var u := Combined(k + U64 * h, a1 + U64 * h1, a2 + U64 * h2, a3 + U64 * h3, a4 + U64 * h4);
    WrapShift(t[0], h - h1 * B11 - h2 * B21 - h3 * B31 - h4 * B41, u[0]);
    WrapShift(t[1], h1 * B12 + h2 - h3 * B32 - h4 * B42, u[1]);
    WrapShift(t[2], h3 * B33 - h1 * B13 - h2 + h4 * B43, u[2]);
    WrapShift(t[3], h1 * B14 - h2 * B24 - h3 * B34 + h4 * B44, u[3]);
  }

  lemma WrappedIs(k: seq<Word>, a1: Word, a2: Word, a3: Word, a4: Word)
    requires |k| == 4
    requires a1 == Low(Rounded(Wide(k), 1)) && a2 == Low(Rounded(Wide(k), 2))
    requires a3 == Low(Rounded(Wide(k), 3)) && a4 == Low(Rounded(Wide(k), 4))
    ensures Wide(k) < B4 && Wrapped(Combined(k[0], a1, a2, a3, a4)) == Vector(Wide(k))
  {
    hide Combined, Rounded, Low, High, Wide, Wrapped;
    var n := Wide(k);
    var r1, r2, r3, r4 := Rounded(n, 1), Rounded(n, 2), Rounded(n, 3), Rounded(n, 4);
    var h := k[1] + U64 * k[2] + B2 * k[3];
    WideSplit(k);
    LowHigh(r1);
    LowHigh(r2);
    LowHigh(r3);
    LowHigh(r4);
    VectorFits(n);
    assert Vector(n) ==
           Combined(k[0] + U64 * h, a1 + U64 * High(r1), a2 + U64 * High(r2), a3 + U64 * High(r3), a4 + U64 * High(r4));
    CombinedWraps(k[0], a1, a2, a3, a4, h, High(r1), High(r2), High(r3), High(r4));
  }

  lemma WideSplit(k: seq<Word>)
    requires |k| == 4
    ensures Wide(k) == k[0] + U64 * (k[1] + U64 * k[2] + B2 * k[3]) && Wide(k) < B4
  {
  }

  lemma LowHigh(x: nat)
    ensures x == Low(x) + U64 * High(x)
  {
  }

  /** A 256-bit scalar in four 64-bit sub-scalars, the first one odd. */
  method Decompose(k: seq<Word>) returns (scalars: array<Word>)
    requires |k| == 4
    ensures fresh(scalars) && scalars.Length == 4
    ensures Wide(k) < B4 && scalars[..] == Subscalars(Wide(k))
  {
    hide Wide, Low, Ell, Combined, Vector, Wrapped, Corrected;
    var a1 := MulTruncate(k, Ell(1));
    var a2 := MulTruncate(k, Ell(2));
    var a3 := MulTruncate(k, Ell(3));
    var a4 := MulTruncate(k, Ell(4));
    WrappedIs(k, a1, a2, a3, a4);
    scalars := CorrectParity(Wrapped(Combined(k[0], a1, a2, a3, a4)));
  }

  // ------------------------------------------------------------ what it means

  /** The basis vectors are relations between the four points. */
  ghost predicate Relations<P(!new)>(g: Group<P>, ps: seq<P>) {
    |ps| == 4 && forall i | 1 <= i <= 4 :: Comb(g, LatticeVector(i), ps) == g.zero
  }

  /** The offset lies in the lattice: it is five times the second vector, minus three times the
      third, plus two times the fourth. */
  lemma VectorIs(k: int, n1: int, n2: int, n3: int, n4: int)
    ensures Combined(k, -n1, 5 - n2, -3 - n3, 2 - n4) ==
            Plus(Plus(Plus(Plus(Unit(4, 0, k), Times(n1, LatticeVector(1))), Times(n2, LatticeVector(2))),
                      Times(n3, LatticeVector(3))), Times(n4, LatticeVector(4)))
  {
  }

  /** The four points, multiplied by the sub-scalars of k, add up to k times the first. */
  lemma SubscalarsMultiply<P(!new)>(g: Group<P>, k: nat, ps: seq<P>)
    requires Abelian(g) && k < B4 && Relations(g, ps)
    ensures Comb(g, Subscalars(k), ps) == Mul(g, k, ps[0])
  {
    hide Abelian, Comb, Mul, Corrected, Combined, LatticeVector, Plus, Times, Unit;
    VectorFits(k);
    ParityKept(g, Vector(k), ps);
    var a1: int, a2: int, a3: int, a4: int := Rounded(k, 1), Rounded(k, 2), Rounded(k, 3), Rounded(k, 4);
    var n1, n2, n3, n4 := -a1, 5 - a2, -3 - a3, 2 - a4;
    VectorIs(k, n1, n2, n3, n4);
    hide Rounded;
    var u0 := Unit(4, 0, k);
    var u1 := Plus(u0, Times(n1, LatticeVector(1)));
    var u2 := Plus(u1, Times(n2, LatticeVector(2)));
    var u3 := Plus(u2, Times(n3, LatticeVector(3)));
    CombUnit(g, 0, k, ps);
    CombShift(g, u0, n1, LatticeVector(1), ps);
    CombShift(g, u1, n2, LatticeVector(2), ps);
    CombShift(g, u2, n3, LatticeVector(3), ps);
    CombShift(g, u3, n4, LatticeVector(4), ps);
  }

  // -------------------------------------------------------------- eigenvalues

  // The multiples of a point of that order that the two endomorphisms compute.
  const PHI: nat := 0x6D9069DC876C883C18F03C13D737624874F0B5E4DAA9BCDF0E63CE8997864
  const PSI: nat := 0x18C475353519268C4C2510AB53B51ECB3688CA09EF0E885DC7F2B7CDFD2A88
  const PSI_PHI: nat := 0x17F1D82D2B617701CC07F2197CCF13EAAAEBB7756D5F80E27D32386D92DABA

  lemma PsiPhiIs()
    ensures PSI * PHI == PSI_PHI + ORDER * 0x40ECEBC1ED34C2D83559FD1A182D029E82F03327B69CE6BB331F7F30967AA
  {
  }

  /** On p the two maps are multiplication by PHI and by PSI, and p has the group's order. */
  ghost predicate Eigen<P(!new)>(g: Group<P>, phi: P -> P, psi: P -> P, p: P) {
    && Mul(g, ORDER, p) == g.zero
    && phi(p) == Mul(g, PHI, p) && psi(p) == Mul(g, PSI, p)
    && psi(phi(p)) == Mul(g, PSI, phi(p))
  }

  /** How often the order goes into a basis vector taken at the eigenvalues. */
  function Cofactor(i: nat): int {
    if i == 1 then -0x3A2D940CDBB5054
    else if i == 2 then 0x15B0601B5F535228
    else if i == 3 then -0x14E68705A31A9D84
    else -0xA0D2BA666FBAED3
  }

  lemma LatticeVanishes(i: nat)
    requires 1 <= i <= 4
    ensures var v := LatticeVector(i); v[0] + v[1] * PHI + v[2] * PSI + v[3] * PSI_PHI == ORDER * Cofactor(i)
  {
  }

  /** A combination of multiples of one point. */
  lemma CombOfMultiples<P(!new)>(g: Group<P>, v: seq<int>, m1: int, m2: int, m3: int, p: P)
    requires Abelian(g) && |v| == 4
    ensures Comb(g, v, [p, Mul(g, m1, p), Mul(g, m2, p), Mul(g, m3, p)]) ==
            Mul(g, v[0] + v[1] * m1 + v[2] * m2 + v[3] * m3, p)
  {
    hide Abelian, Mul;
    var ps := [p, Mul(g, m1, p), Mul(g, m2, p), Mul(g, m3, p)];
    MulMul(g, v[1], m1, p);
    MulMul(g, v[2], m2, p);
    MulMul(g, v[3], m3, p);
    MulSum(g, v[2] * m2, v[3] * m3, p);
    MulSum(g, v[1] * m1, v[2] * m2 + v[3] * m3, p);
    MulSum(g, v[0], v[1] * m1 + (v[2] * m2 + v[3] * m3), p);
    CombFour(g, v, ps);
  }

  lemma CombFour<P(!new)>(g: Group<P>, v: seq<int>, ps: seq<P>)
    requires Abelian(g) && |v| == |ps| == 4
    ensures Comb(g, v, ps) ==
            g.add(Mul(g, v[0], ps[0]), g.add(Mul(g, v[1], ps[1]), g.add(Mul(g, v[2], ps[2]), Mul(g, v[3], ps[3]))))
  {
    hide Abelian, Mul, Comb;
    assert v[0..] == v && ps[0..] == ps;
    CombStep(g, v, ps, 0);
    CombStep(g, v, ps, 1);
    CombStep(g, v, ps, 2);
    CombStep(g, v, ps, 3);
    CombZero(g, v[4..], ps[4..]);
    Zero(g, Mul(g, v[3], ps[3]));
  }

  lemma CombStep<P(!new)>(g: Group<P>, v: seq<int>, ps: seq<P>, i: nat)
    requires |v| == |ps| && i < |v|
    ensures Comb(g, v[i..], ps[i..]) == g.add(Mul(g, v[i], ps[i]), Comb(g, v[i + 1..], ps[i + 1..]))
  {
    assert v[i..][1..] == v[i + 1..] && ps[i..][1..] == ps[i + 1..];
  }

  /** The four points of p satisfy all four relations. */
  lemma EigenRelations<P(!new)>(g: Group<P>, phi: P -> P, psi: P -> P, p: P)
    requires Abelian(g) && Eigen(g, phi, psi, p)
    ensures Relations(g, [p, phi(p), psi(p), psi(phi(p))])
  {
    hide Abelian, Mul, Comb;
    MulMul(g, PSI, PHI, p);
    PsiPhiIs();
    MulOrder(g, PSI_PHI, 0x40ECEBC1ED34C2D83559FD1A182D029E82F03327B69CE6BB331F7F30967AA, p);
    hide LatticeVector, Cofactor;
    forall i | 1 <= i <= 4
      ensures Comb(g, LatticeVector(i), [p, phi(p), psi(p), psi(phi(p))]) == g.zero
    {
      CombOfMultiples(g, LatticeVector(i), PHI, PSI, PSI_PHI, p);
      LatticeVanishes(i);
      MulOrder(g, 0, Cofactor(i), p);
      MulZero(g, p);
    }
  }
}
