/** Fixed-base scalar multiplication k*G: the modified LSB-set recoding of a
    256-bit scalar and the comb that adds table points column by column. */
module FourQComb {
  import opened Bits
  import opened Group
  import opened Radix2
  import opened Words
  import opened FourQRecode
  import opened FourQMul
  import opened FourQOrder

  const W: nat := 5
  const V: nat := 5
  const E: nat := 10
  const D: nat := 50
  const L: nat := 250

  // ------------------------------------------------------------ 256-bit words

  /** Shift right by one, taking in the low bit of the next word. */
  function ShiftIn(high: Word, low: Word): Word {
    low / 2 + (high % 2) * 0x8000_0000_0000_0000
  }

  lemma WideHalf(ws: seq<Word>, vs: seq<Word>)
    requires |ws| == |vs| == 4
    requires vs == [ShiftIn(ws[1], ws[0]), ShiftIn(ws[2], ws[1]), ShiftIn(ws[3], ws[2]), ws[3] / 2]
    ensures Wide(ws) == 2 * Wide(vs) + ws[0] % 2
  {
  }

  method ShiftRight(scalar: array<Word>)
    requires scalar.Length == 4
    modifies scalar
    ensures old(Wide(scalar[..])) == 2 * Wide(scalar[..]) + old(scalar[0]) % 2
  {
    hide Wide, ShiftIn;
    ghost var ws := scalar[..];
    for j := 0 to 3
      invariant forall k | 0 <= k < j :: scalar[k] == ShiftIn(ws[k + 1], ws[k])
      invariant forall k | j <= k < 4 :: scalar[k] == ws[k]
    {
      scalar[j] := ShiftIn(scalar[j + 1], scalar[j]);
    }
    scalar[3] := scalar[3] / 2;
    WideHalf(ws, scalar[..]);
  }

  lemma WordCarry(ws: seq<Word>, j: nat, carry: nat, sum: Word, out: nat)
    requires |ws| == 4 && j < 4 && carry <= 1
    requires sum == (ws[j] + carry) % U64 && out == if carry == 1 && sum == 0 then 1 else 0
    ensures Wide(ws[j := sum]) + out * Place64(j + 1) == Wide(ws) + carry * Place64(j)
  {
    PlaceNext(0);
    PlaceNext(1);
    PlaceNext(2);
    PlaceNext(3);
    hide Place64;
  }

  /** Adds 0 or 1, rippling the carry through the words. */
  method AddBit(scalar: array<Word>, temp: nat)
    requires scalar.Length == 4 && temp <= 1 && Wide(scalar[..]) + temp < B4
    modifies scalar
    ensures Wide(scalar[..]) == old(Wide(scalar[..])) + temp
  {
    hide Wide, Place64;
    ghost var total := Wide(scalar[..]) + temp;
    ghost var ws := scalar[..];
    var sum := (scalar[0] + temp) % U64;
    var carry := if temp == 1 && sum == 0 then 1 else 0;
    WordCarry(ws, 0, temp, sum, carry);
    PlaceNext(0);
    scalar[0] := sum;
    assert scalar[..] == ws[0 := sum];
    for j := 1 to 4
      invariant carry <= 1 && Wide(scalar[..]) + carry * Place64(j) == total
    {
      ws := scalar[..];
      sum := (scalar[j] + carry) % U64;
      var next := if carry == 1 && sum == 0 then 1 else 0;
      WordCarry(ws, j, carry, sum, next);
      scalar[j] := sum;
      assert scalar[..] == ws[j := sum];
      carry := next;
    }
    PlaceFour();
  }

  // ---------------------------------------------------------------- recoding

  /** In the sign row, zero stands for plus. */
  function Signed(sign: nat, x: int): int {
    if sign == 0 then x else -x
  }

  /** The signed digit at place i: the first D places carry the signs of all the others. */
  function PlaceDigit(ds: seq<nat>, i: nat): int
    requires i < |ds|
  {
    if i < D then Signed(ds[i], 1) else Signed(ds[i % D], ds[i])
  }

  /** The signed binary digits that the recoded values stand for. */
  function Expanded(ds: seq<nat>): (xs: seq<int>)
    ensures |xs| == |ds|
  {
    seq(|ds|, i requires 0 <= i < |ds| => PlaceDigit(ds, i))
  }

  lemma ExpandedSnoc(ds: seq<nat>, d: nat, rest: int)
    ensures Horner(Expanded(ds + [d]), rest) == Horner(Expanded(ds), PlaceDigit(ds + [d], |ds|) + 2 * rest)
  {
    hide Horner;
    assert Expanded(ds + [d]) == Expanded(ds) + [PlaceDigit(ds + [d], |ds|)];
    HornerSnoc(Expanded(ds), PlaceDigit(ds + [d], |ds|), rest);
  }

  /** How much can be left at place i. */
  function Bound(i: nat): nat {
    if i <= 249 then Pow2(249 - i) else 1
  }

  /** Invariant of the sign row: i signs written, u left. */
  predicate SignsDone(k: nat, ds: seq<nat>, u: nat) {
    Horner(Expanded(ds), 2 * u + 1) == Odd(k) && |ds| < D && u < Bound(|ds| + 1)
  }

  /** Invariant of the remaining rows. */
  predicate RowsDone(k: nat, ds: seq<nat>, u: nat) {
    && Horner(Expanded(ds), u) == Odd(k) && D <= |ds| <= L && ds[D - 1] == 0
    && u <= Bound(|ds|) && (|ds| == L ==> u == 0)
  }

  lemma SignStep(k: nat, ds: seq<nat>, u: nat, bit: nat, next: nat)
    requires SignsDone(k, ds, u) && |ds| < D - 1 && bit <= 1 && u == 2 * next + bit
    ensures SignsDone(k, ds + [if bit == 0 then ALL_ONES else 0], next)
  {
    var d := if bit == 0 then ALL_ONES else 0;
    ExpandedSnoc(ds, d, 2 * next + 1);
    hide Horner;
    assert Bound(|ds| + 1) == 2 * Bound(|ds| + 2);
  }

  lemma LastSign(k: nat, ds: seq<nat>, u: nat)
    requires SignsDone(k, ds, u) && |ds| == D - 1
    ensures RowsDone(k, ds + [0], u)
  {
    ExpandedSnoc(ds, 0, u);
  }

  /** What the code adds back when the digit is negative. */
  function Borrow(ds: seq<nat>, i: nat, bit: nat): nat
    requires D <= i && D <= |ds|
  {
    if ds[i % D] != 0 && bit == 1 then 1 else 0
  }

  lemma DigitStep(k: nat, ds: seq<nat>, u: nat, bit: nat, half: nat)
    requires RowsDone(k, ds, u) && |ds| < L && bit <= 1 && u == 2 * half + bit
    ensures RowsDone(k, ds + [bit], half + Borrow(ds, |ds|, bit))
  {
    var i, next := |ds|, half + Borrow(ds, |ds|, bit);
    ExpandedSnoc(ds, bit, next);
    assert PlaceDigit(ds + [bit], i) == Signed(ds[i % D], bit);
    assert u == Signed(ds[i % D], bit) + 2 * next;
    assert next <= Bound(i + 1) && (i + 1 == L ==> next == 0) by {
      hide Horner;
      if i < 249 {
        assert Bound(i) == 2 * Bound(i + 1);
      } else {
        assert Bound(249) == 1 && i % D == D - 1;
      }
    }
  }

  lemma FirstShift(k: nat, half: nat)
    requires k < Pow2(249) && k == 2 * half + k % 2
    ensures SignsDone(k, [], half)
  {
    assert Bound(1) == Pow2(248) && Pow2(249) == 2 * Pow2(248);
  }

  lemma Room(u: nat, i: nat)
    requires u <= Bound(i) && i >= D
    ensures u < B4 - 1
  {
    if i <= 249 {
      Pow2Monotone(249 - i, 199);
      Pow64();
      Pow2Sum(64, 64);
      Pow2Sum(128, 64);
      Pow2Sum(192, 7);
      assert Pow2(7) == 128;
    }
  }

  method SignRow(scalar: array<Word>, digits: array<nat>, ghost k: nat)
    requires scalar.Length == 4 && digits.Length >= L && k == Wide(scalar[..]) < Pow2(249)
    modifies scalar, digits
    ensures RowsDone(k, digits[..D], Wide(scalar[..]))
  {
    hide Wide, Pow2, SignsDone, RowsDone;
    digits[D - 1] := 0;
    ghost var low := scalar[0] % 2;
    WideParity(scalar[..]);
    ShiftRight(scalar);
    FirstShift(k, Wide(scalar[..]));
    assert digits[..0] == [];
    for i := 0 to D - 1
      invariant digits[D - 1] == 0 && SignsDone(k, digits[..i], Wide(scalar[..]))
    {
      ghost var u := Wide(scalar[..]);
      var bit := scalar[0] % 2;
      digits[i] := if bit == 0 then ALL_ONES else 0;
      ShiftRight(scalar);
      SignStep(k, digits[..i], u, bit, Wide(scalar[..]));
      assert digits[..i + 1] == digits[..i] + [digits[i]];
    }
    LastSign(k, digits[..D - 1], Wide(scalar[..]));
    assert digits[..D] == digits[..D - 1] + [0];
  }

  lemma WideParity(ws: seq<Word>)
    requires |ws| == 4
    ensures Wide(ws) % 2 == ws[0] % 2
  {
    EvenRest(ws[0], U64 / 2 * ws[1] + B2 / 2 * ws[2] + B3 / 2 * ws[3]);
  }

  lemma EvenRest(x: nat, rest: nat)
    ensures (x + 2 * rest) % 2 == x % 2
  {
  }

  /** For every scalar below 2^249 nothing is left over, and the digits stand for
      the scalar, rounded up to an odd number. */
  method MlsbSetRecode(scalar: array<Word>, digits: array<nat>)
    requires scalar.Length == 4 && digits.Length >= L && Wide(scalar[..]) < Pow2(249)
    modifies scalar, digits
    ensures Value(Expanded(digits[..L])) == Odd(old(Wide(scalar[..])))
    ensures Wide(scalar[..]) == 0
    ensures forall i | D <= i < L :: digits[i] <= 1
  {
    hide Wide, Pow2, RowsDone, Bound, Expanded, Odd;
    ghost var k := Wide(scalar[..]);
    SignRow(scalar, digits, k);
    for i := D to L
      invariant RowsDone(k, digits[..i], Wide(scalar[..]))
      invariant forall j | D <= j < i :: digits[j] <= 1
    {
      ghost var u, ds := Wide(scalar[..]), digits[..i];
      RowsFacts(k, ds, u);
      Room(u, i);
      var bit := scalar[0] % 2;
      digits[i] := bit;
      ShiftRight(scalar);
      var temp := if digits[i % D] != 0 && bit == 1 then 1 else 0;
      AddBit(scalar, temp);
      DigitStep(k, ds, u, bit, Wide(scalar[..]) - temp);
      assert digits[..i + 1] == ds + [bit];
    }
    RowsFacts(k, digits[..L], Wide(scalar[..]));
  }

  lemma RowsFacts(k: nat, ds: seq<nat>, u: nat)
    requires RowsDone(k, ds, u)
    ensures u <= Bound(|ds|) && D <= |ds| && (|ds| == L ==> u == 0 && Value(Expanded(ds)) == Odd(k))
  {
  }

  // ----------------------------------------------------------------- folding

  /** x[i] + 2^n x[i + n] + 4^n x[i + 2n] + ... */
  function FoldAt(xs: seq<int>, n: nat, i: nat): int
    requires n > 0
    decreases |xs| - i
  {
    if i >= |xs| then 0 else xs[i] + Pow2(n) * FoldAt(xs, n, i + n)
  }

  /** A long numeral cut into pieces of n digits and laid on top of each other. */
  function Fold(xs: seq<int>, n: nat): (r: seq<int>)
    requires n > 0
    ensures |r| == n
  {
    seq(n, i requires 0 <= i => FoldAt(xs, n, i))
  }

  lemma {:induction false} HornerLinear(xs: seq<int>, ys: seq<int>, k: int)
    requires |xs| == |ys|
    ensures Value(Plus(xs, Times(k, ys))) == Value(xs) + k * Value(ys)
  {
    if xs != [] {
      HornerLinear(xs[1..], ys[1..], k);
      assert Plus(xs, Times(k, ys))[1..] == Plus(xs[1..], Times(k, ys[1..]));
      assert k * (ys[0] + 2 * Value(ys[1..])) == k * ys[0] + 2 * (k * Value(ys[1..]));
    }
  }

  lemma {:induction false} ValueConcat(xs: seq<int>, ys: seq<int>)
    ensures Value(xs + ys) == Value(xs) + Pow2(|xs|) * Value(ys)
  {
    if xs == [] {
      assert xs + ys == ys;
    } else {
      assert (xs + ys)[1..] == xs[1..] + ys;
      ValueConcat(xs[1..], ys);
      assert 2 * (Pow2(|xs| - 1) * Value(ys)) == Pow2(|xs|) * Value(ys);
    }
  }

  lemma {:induction false} FoldAtShift(xs: seq<int>, n: nat, i: nat, m: nat)
    requires n > 0 && m <= |xs|
    ensures FoldAt(xs[m..], n, i) == FoldAt(xs, n, i + m)
    decreases |xs| - i
  {
    if i < |xs| - m {
      hide Pow2;
      FoldAtShift(xs, n, i + n, m);
    }
  }

  /** Folding keeps the value. */
  lemma {:induction false} FoldKeepsValue(xs: seq<int>, n: nat, pieces: nat)
    requires n > 0 && |xs| == n * pieces
    ensures Value(Fold(xs, n)) == Value(xs)
    decreases pieces
  {
    if pieces == 0 {
      assert Fold(xs, n) == Zeros(n);
      TrailingZeros([], n);
      assert [] + Zeros(n) == Zeros(n);
    } else {
      FoldPiece(xs, n, pieces);
      var tail := xs[n..];
      FoldKeepsValue(tail, n, pieces - 1);
      hide Horner, Pow2, Value, Fold;
      HornerLinear(xs[..n], Fold(tail, n), Pow2(n));
      ValueConcat(xs[..n], tail);
      assert xs == xs[..n] + tail;
    }
  }

  lemma FoldPiece(xs: seq<int>, n: nat, pieces: nat)
    requires n > 0 && pieces > 0 && |xs| == n * pieces
    ensures n <= |xs| && |xs[n..]| == n * (pieces - 1)
    ensures Fold(xs, n) == Plus(xs[..n], Times(Pow2(n), Fold(xs[n..], n)))
  {
    assert n * pieces == n + n * (pieces - 1);
    hide Pow2;
    forall i | 0 <= i < n
      ensures FoldAt(xs, n, i) == xs[i] + Pow2(n) * FoldAt(xs[n..], n, i)
    {
      FoldAtShift(xs, n, i, n);
    }
  }

  // ------------------------------------------------------------- the columns

  const Q: int := 0x4_0000_0000_0000

  /** The table digit of column i. */
  function ColumnDigit(ds: seq<nat>, i: nat): nat
    requires i < D && |ds| == L
  {
    ds[i + D] + 2 * ds[i + 2 * D] + 4 * ds[i + 3 * D] + 8 * ds[i + 4 * D]
  }

  /** The multiple of G that a table digit stands for. */
  function Weight(d: nat): int {
    Nest(Q, 1, d % 2, d / 2 % 2, d / 4 % 2, d / 8 % 2)
  }

  function Nest(p: int, a: int, b: int, c: int, d: int, e: int): int {
    a + p * (b + p * (c + p * (d + p * e)))
  }

  lemma NestNeg(a: int, b: int, c: int, d: int, e: int)
    ensures Nest(Q, -a, -b, -c, -d, -e) == -Nest(Q, a, b, c, d, e)
  {
  }

  lemma FourBits(b0: nat, b1: nat, b2: nat, b3: nat)
    requires b0 <= 1 && b1 <= 1 && b2 <= 1 && b3 <= 1
    ensures var d := b0 + 2 * b1 + 4 * b2 + 8 * b3;
            d < 16 && Weight(d) == Nest(Q, 1, b0, b1, b2, b3)
  {
    hide Nest;
    var d := b0 + 2 * b1 + 4 * b2 + 8 * b3;
    assert d / 2 == b1 + 2 * b2 + 4 * b3;
    assert d / 4 == b2 + 2 * b3;
    assert d / 8 == b3;
  }

  lemma Pow50()
    ensures Pow2(10) == 1024 && Pow2(50) == Q
  {
    Pow2Sum(10, 10);
    Pow2Sum(20, 10);
    Pow2Sum(30, 10);
    Pow2Sum(40, 10);
  }

  lemma FoldFive(xs: seq<int>, n: nat, i: nat)
    requires n > 0 && |xs| == 5 * n && i < n
    ensures FoldAt(xs, n, i) == Nest(Pow2(n), xs[i], xs[i + n], xs[i + 2 * n], xs[i + 3 * n], xs[i + 4 * n])
  {
    hide Pow2;
    var p := Pow2(n);
    assert FoldAt(xs, n, i + 5 * n) == 0;
    assert FoldAt(xs, n, i + 4 * n) == xs[i + 4 * n] + p * 0;
    assert FoldAt(xs, n, i + 3 * n) == xs[i + 3 * n] + p * FoldAt(xs, n, i + 4 * n);
    assert FoldAt(xs, n, i + 2 * n) == xs[i + 2 * n] + p * FoldAt(xs, n, i + 3 * n);
    assert FoldAt(xs, n, i + n) == xs[i + n] + p * FoldAt(xs, n, i + 2 * n);
  }

  /** Column i of the folded digits is its sign times its table weight. */
  lemma ColumnWeight(ds: seq<nat>, i: nat)
    requires i < D && |ds| == L && forall k | D <= k < L :: ds[k] <= 1
    ensures ColumnDigit(ds, i) < 16
    ensures FoldAt(Expanded(ds), D, i) == Signed(ds[i], Weight(ColumnDigit(ds, i)))
  {
    hide Weight, Pow2, FoldAt, Nest, Expanded;
    FoldFive(Expanded(ds), D, i);
    Pow50();
    FourBits(ds[i + D], ds[i + 2 * D], ds[i + 3 * D], ds[i + 4 * D]);
    ExpandedColumn(ds, i);
    NestNeg(1, ds[i + D], ds[i + 2 * D], ds[i + 3 * D], ds[i + 4 * D]);
  }

  lemma ExpandedColumn(ds: seq<nat>, i: nat)
    requires i < D && |ds| == L
    ensures Expanded(ds)[i] == Signed(ds[i], 1)
    ensures Expanded(ds)[i + D] == Signed(ds[i], ds[i + D])
    ensures Expanded(ds)[i + 2 * D] == Signed(ds[i], ds[i + 2 * D])
    ensures Expanded(ds)[i + 3 * D] == Signed(ds[i], ds[i + 3 * D])
    ensures Expanded(ds)[i + 4 * D] == Signed(ds[i], ds[i + 4 * D])
  {
  }

  /** 2^(10 t) x. */
  function Shifted(t: nat, x: int): int {
    if t == 0 then x else 1024 * Shifted(t - 1, x)
  }

  lemma {:induction false} ShiftedStep(t: nat, c: int, rest: int)
    ensures Shifted(t, c + 1024 * rest) == Shifted(t, c) + Shifted(t + 1, rest)
    ensures Shifted(t, -c) == -Shifted(t, c)
  {
    if t > 0 {
      ShiftedStep(t - 1, c, rest);
    }
  }

  /** Entry d of sub-table t is 2^(10 t) * Weight(d) times the base point. */
  ghost predicate IsCombTable<P(!new)>(g: Group<P>, table: seq<P>, p: P) {
    |table| == 80 && forall e | 0 <= e < 80 :: table[e] == Mul(g, Shifted(e / 16, Weight(e % 16)), p)
  }

  lemma {:induction false} ShiftedIs(t: nat, x: int)
    ensures Shifted(t, x) == Pow2(10 * t) * x
  {
    if t > 0 {
      hide Pow2;
      Pow50();
      Pow2Sum(10, 10 * (t - 1));
      ShiftedIs(t - 1, x);
      TimesTwice(Pow2(10 * (t - 1)), x);
    } else {
      assert Pow2(0) == 1;
    }
  }

  lemma TimesTwice(p: nat, x: int)
    ensures 1024 * (p * x) == (1024 * p) * x
  {
  }

  lemma WeightIs(d: nat)
    requires d < 16
    ensures Weight(d) ==
            1 + d % 2 * 0x4_0000_0000_0000 + d / 2 % 2 * 0x10_0000_0000_0000_0000_0000_0000 +
            d / 4 % 2 * 0x40_0000_0000_0000_0000_0000_0000_0000_0000_0000 +
            d / 8 * 0x100_0000_0000_0000_0000_0000_0000_0000_0000_0000_0000_0000_0000
  {
  }

  lemma EntryBits(e: nat)
    ensures var d := e % 16; d % 2 == e % 2 && d / 2 % 2 == e / 2 % 2 && d / 4 % 2 == e / 4 % 2 && d / 8 == e / 8 % 2
  {
    var t, d := e / 16, e % 16;
    assert e / 2 == d / 2 + 2 * (4 * t) && e / 4 == d / 4 + 2 * (2 * t) && e / 8 == d / 8 + 2 * t;
    EvenRest(d, 8 * t);
    EvenRest(d / 2, 4 * t);
    EvenRest(d / 4, 2 * t);
    EvenRest(d / 8, t);
  }

  lemma TableEntry(e: nat)
    ensures Shifted(e / 16, Weight(e % 16)) == Pow2(10 * (e / 16)) *
            (1 + e % 2 * 0x4_0000_0000_0000 + e / 2 % 2 * 0x10_0000_0000_0000_0000_0000_0000 +
             e / 4 % 2 * 0x40_0000_0000_0000_0000_0000_0000_0000_0000_0000 +
             e / 8 % 2 * 0x100_0000_0000_0000_0000_0000_0000_0000_0000_0000_0000_0000_0000)
  {
    hide Pow2, Shifted, Weight;
    EntryBits(e);
    WeightIs(e % 16);
    ShiftedIs(e / 16, Weight(e % 16));
  }

  /** Entry e holds 2^(10 (e / 16)) times one plus the powers 2^50, 2^100, 2^150 and 2^200 that the bits of
      e select. */
  lemma CombTableIs<P(!new)>(g: Group<P>, table: seq<P>, p: P)
    ensures IsCombTable(g, table, p) <==> |table| == 80 && forall e | 0 <= e < 80 ::
      var weight := 1 + e % 2 * 0x4_0000_0000_0000 + e / 2 % 2 * 0x10_0000_0000_0000_0000_0000_0000 +
                    e / 4 % 2 * 0x40_0000_0000_0000_0000_0000_0000_0000_0000_0000 +
                    e / 8 % 2 * 0x100_0000_0000_0000_0000_0000_0000_0000_0000_0000_0000_0000_0000;
      table[e] == Mul(g, Pow2(10 * (e / 16)) * weight, p)
  {
    hide Pow2, Mul, Shifted, Weight;
    forall e | 0 <= e < 80 { TableEntry(e); }
  }

  /** The signed table point of column ii + 10 t. */
  method ColumnPoint<P(!new)>(g: Group<P>, table: seq<P>, digits: array<nat>, t: nat, ii: nat, ghost p: P)
      returns (s: P)
    requires Abelian(g) && IsCombTable(g, table, p) && t < V && ii < E
    requires digits.Length >= L && forall k | D <= k < L :: digits[k] <= 1
    ensures s == Mul(g, Shifted(t, FoldAt(Expanded(digits[..L]), D, ii + E * t)), p)
  {
    hide Abelian, Mul, Shifted, FoldAt, Expanded, Weight;
    var pos := ii + E * t;
    ColumnWeight(digits[..L], pos);
    var digit := digits[4 * D + pos];
    var i := 3 * D + pos;
    digit := 2 * digit + digits[i];
    i := i - D;
    digit := 2 * digit + digits[i];
    i := i - D;
    digit := 2 * digit + digits[i];
    assert digit == ColumnDigit(digits[..L], pos);
    s := Select(table[16 * t..16 * t + 16], digit);
    assert (16 * t + digit) / 16 == t && (16 * t + digit) % 16 == digit;
    assert s == table[16 * t + digit];
    if digits[pos] != 0 {
      s := g.neg(s);
      MulNeg(g, Shifted(t, Weight(digit)), p);
      ShiftedStep(t, Weight(digit), 0);
    }
  }

  /** Adds the columns ii, ii + 10, ..., highest first, below sub-table t. */
  method AddColumns<P(!new)>(g: Group<P>, table: seq<P>, digits: array<nat>, t: nat, ii: nat, r0: P,
                             ghost n: int, ghost p: P) returns (r: P)
    requires Abelian(g) && IsCombTable(g, table, p) && t <= V && ii < E
    requires digits.Length >= L && forall k | D <= k < L :: digits[k] <= 1
    requires var cs := Fold(Expanded(digits[..L]), D); r0 == Mul(g, n + Shifted(t, FoldAt(cs, E, ii + E * t)), p)
    ensures var cs := Fold(Expanded(digits[..L]), D); r == Mul(g, n + FoldAt(cs, E, ii), p)
  {
    hide Abelian, Mul, Shifted, FoldAt, Expanded, Weight, IsCombTable;
    ghost var cs := Fold(Expanded(digits[..L]), D);
    r := r0;
    for j := t downto 0
      invariant r == Mul(g, n + Shifted(j, FoldAt(cs, E, ii + E * j)), p)
    {
      var s := ColumnPoint(g, table, digits, j, ii, p);
      FoldNext(cs, ii, j);
      MulSum(g, n + Shifted(j + 1, FoldAt(cs, E, ii + E * (j + 1))), Shifted(j, cs[ii + E * j]), p);
      r := g.add(r, s);
    }
    ShiftedZero(FoldAt(cs, E, ii));
  }

  lemma FoldNext(cs: seq<int>, ii: nat, j: nat)
    requires |cs| == D && ii < E && j < V
    ensures Shifted(j, FoldAt(cs, E, ii + E * j)) ==
            Shifted(j, cs[ii + E * j]) + Shifted(j + 1, FoldAt(cs, E, ii + E * (j + 1)))
  {
    Pow50();
    hide Pow2, Shifted;
    ShiftedStep(j, cs[ii + E * j], FoldAt(cs, E, ii + E * (j + 1)));
  }

  lemma ShiftedZero(x: int)
    ensures Shifted(0, x) == x
  {
  }

  lemma TopColumn(cs: seq<int>)
    requires |cs| == D
    ensures FoldAt(cs, E, D - 1) == cs[D - 1]
  {
    assert FoldAt(cs, E, D - 1 + E) == 0;
    assert Pow2(E) * 0 == 0;
  }

  lemma NoColumn(cs: seq<int>, ii: nat)
    requires |cs| == D
    ensures Shifted(V, FoldAt(cs, E, ii + E * V)) == 0
  {
  }

  /** Folding twice, by rows and then by sub-tables, keeps the value. */
  lemma FoldTwice(xs: seq<int>)
    requires |xs| == L
    ensures Value(Fold(Fold(xs, D), E)) == Value(xs)
  {
    FoldKeepsValue(xs, D, W);
    FoldKeepsValue(Fold(xs, D), E, V);
  }

  lemma HornerFrom(xs: seq<int>, i: nat)
    requires i < |xs|
    ensures Value(xs[i..]) == xs[i] + 2 * Value(xs[i + 1..])
    ensures i == |xs| - 1 ==> Value(xs[i..]) == xs[i]
  {
    assert xs[i..][1..] == xs[i + 1..];
  }

  /** The comb over the recoded digits. */
  method Comb5<P(!new)>(g: Group<P>, table: seq<P>, digits: array<nat>, ghost p: P) returns (r: P)
    requires Abelian(g) && IsCombTable(g, table, p)
    requires digits.Length >= L && forall k | D <= k < L :: digits[k] <= 1
    ensures r == Mul(g, Value(Expanded(digits[..L])), p)
  {
    hide Abelian, Mul, Shifted, FoldAt, Expanded, IsCombTable, Value;
    ghost var cs := Fold(Expanded(digits[..L]), D);
    ghost var fs := Fold(cs, E);
    r := ColumnPoint(g, table, digits, V - 1, E - 1, p);
    TopColumn(cs);
    r := AddColumns(g, table, digits, V - 1, E - 1, r, 0, p);
    HornerFrom(fs, E - 1);
    for ii := E - 1 downto 0
      invariant r == Mul(g, Value(fs[ii..]), p)
    {
      ghost var n := Value(fs[ii + 1..]);
      MulSum(g, n, n, p);
      r := g.add(r, r);
      NoColumn(cs, ii);
      r := AddColumns(g, table, digits, V, ii, r, 2 * n, p);
      HornerFrom(fs, ii);
    }
    assert fs[0..] == fs;
    FoldTwice(Expanded(digits[..L]));
  }

  // -------------------------------------------------------------- entry point

  lemma OrderSmall()
    ensures 2 * ORDER < Pow2(249)
  {
    Pow64();
    hide Pow2;
    Pow2Sum(64, 64);
    Pow2Sum(128, 64);
    Pow57();
    Pow2Sum(192, 57);
  }

  lemma Pow57()
    ensures Pow2(57) == 128 * Q
  {
    Pow50();
    assert Pow2(7) == 128;
    Pow2Sum(50, 7);
  }

  /** An even scalar becomes odd by adding the order; an odd one is kept. */
  method ConversionToOdd(k: array<Word>)
    requires k.Length == 4 && Wide(k[..]) < ORDER
    modifies k
    ensures Wide(k[..]) % 2 == 1 && Wide(k[..]) < 2 * ORDER
    ensures Wide(k[..]) == old(Wide(k[..])) || Wide(k[..]) == old(Wide(k[..])) + ORDER
  {
    hide Wide, Num, Place64;
    WideParity(k[..]);
    Constants();
    var masked := if k[0] % 2 == 0 then ORDER_WORDS else [0, 0, 0, 0];
    NoWords();
    FourWords(k[..]);
    FourWords(masked);
    var carry := Add(k[..], masked, k);
    FourWords(k[..]);
  }

  lemma OddKept(n: nat)
    requires n % 2 == 1
    ensures Odd(n) == n
  {
  }

  /** For every 256-bit k the comb returns k times the base point. */
  method EccMulFixed<P(!new)>(g: Group<P>, table: seq<P>, k: seq<Word>, ghost p: P) returns (r: P)
    requires Abelian(g) && IsCombTable(g, table, p) && Mul(g, ORDER, p) == g.zero && |k| == 4
    ensures r == Mul(g, Wide(k), p)
  {
    hide Abelian, Mul, IsCombTable, Wide, Pow2, Expanded, Value, Odd;
    var temp := new Word[4](_ => 0);
    ModuloOrder(k, temp);
    MulMod(g, Wide(k), p);
    MulOrder(g, Wide(k) % ORDER, 1, p);
    ConversionToOdd(temp);
    ghost var n := Wide(temp[..]);
    OrderSmall();
    OddKept(n);
    var digits := new nat[271](_ => 0);
    MlsbSetRecode(temp, digits);
    r := Comb5(g, table, digits, p);
  }
}
