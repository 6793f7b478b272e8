/** Double scalar multiplication k*G + l*Q: width-w non-adjacent form, tables of
    odd multiples, and the interleaved double-and-add loop over eight scalars. */
module FourQWnaf {
  import opened Bits
  import opened Group
  import opened Radix2
  import opened Words
  import opened FourQDecompose
  import opened FourQMul

  // ---------------------------------------------------------- the digit string

  /** Non-zero digits are odd, small, and at least w places apart. */
  predicate Naf(xs: seq<int>, w: nat)
    requires w >= 2
  {
    && (forall i | 0 <= i < |xs| && xs[i] != 0 :: xs[i] % 2 == 1 && 0 - Pow2(w - 1) < xs[i] < Pow2(w - 1))
    && (forall i, j | 0 <= i < j < |xs| && xs[i] != 0 && xs[j] != 0 :: i + w <= j)
  }

  /** The last w - 1 digits are zero, so that a non-zero one may follow. */
  predicate Clear(xs: seq<int>, w: nat) {
    forall i | 0 <= i < |xs| && xs[i] != 0 :: i + w <= |xs|
  }

  lemma NafZeros(xs: seq<int>, n: nat, w: nat)
    requires w >= 2 && Naf(xs, w)
    ensures Naf(xs + Zeros(n), w)
    ensures Clear(xs, w) ==> Clear(xs + Zeros(n), w)
  {
    hide Pow2;
  }

  lemma NafDigit(xs: seq<int>, d: int, w: nat)
    requires w >= 2 && Naf(xs, w) && Clear(xs, w)
    requires d % 2 == 1 && 0 - Pow2(w - 1) < d < Pow2(w - 1)
    ensures Naf(xs + [d], w) && Clear(xs + [d] + Zeros(w - 1), w)
  {
    hide Pow2;
  }

  /** The signed residue of an odd k modulo 2^w, and what remains. */
  function Residue(k: nat, w: nat): int
    requires w >= 2
  {
    var raw := k % Pow2(w);
    if raw > Pow2(w - 1) - 1 then raw - Pow2(w) else raw
  }

  function Remaining(k: nat, w: nat): nat
    requires w >= 2
  {
    k / Pow2(w) + if Residue(k, w) < 0 then 1 else 0
  }

  lemma ResidueSmall(k: nat, w: nat)
    requires w >= 2 && k % 2 == 1
    ensures Residue(k, w) % 2 == 1 && 0 - Pow2(w - 1) < Residue(k, w) < Pow2(w - 1)
    ensures k == Residue(k, w) + Pow2(w) * Remaining(k, w)
  {
    var h, g := Pow2(w - 1), Pow2(w - 2);
    assert Pow2(w) == 2 * h && h == 2 * g;
    hide Pow2, Residue, Remaining;
    var q, raw := Parts(k, w);
    TwiceProduct(h, q);
    SignedParity(k, h * q, raw, g);
    DistributeOne(Pow2(w), q);
  }

  lemma SignedParity(k: nat, t: nat, raw: nat, g: nat)
    requires k % 2 == 1 && k == 2 * t + raw && raw < 4 * g
    ensures raw % 2 == 1 && (raw - 4 * g) % 2 == 1 && raw != 2 * g
  {
  }

  /** The unsigned residue behind the signed one. */
  lemma Parts(k: nat, w: nat) returns (q: nat, raw: nat)
    requires w >= 2
    ensures k == Pow2(w) * q + raw && raw < Pow2(w)
    ensures Residue(k, w) == if raw > Pow2(w - 1) - 1 then raw - Pow2(w) else raw
    ensures Remaining(k, w) == if Residue(k, w) < 0 then q + 1 else q
  {
    hide Pow2;
    q, raw := k / Pow2(w), k % Pow2(w);
  }

  lemma TwiceProduct(h: nat, q: nat)
    ensures (2 * h) * q == 2 * (h * q)
  {
  }

  lemma DistributeOne(p: nat, q: nat)
    ensures p * (q + 1) == p * q + p
  {
  }

  lemma RemainingSmall(k: nat, w: nat, m: nat)
    requires w >= 2 && k % 2 == 1 && k <= Pow2(m)
    ensures m < w ==> Remaining(k, w) == 0
    ensures m >= w ==> Remaining(k, w) <= Pow2(m - w)
  {
    if m < w {
      if m > 0 {
        assert Pow2(m) % 2 == 0;
        Pow2Monotone(m, w - 1);
        assert k < Pow2(w - 1) < Pow2(w);
      } else {
        assert k == 1 && Pow2(w - 2) >= 1;
      }
      hide Pow2;
      SmallDivision(k, Pow2(w));
    } else {
      assert Pow2(m) % 2 == 0;
      Pow2Sum(w, m - w);
      hide Pow2;
      LargeDivision(k, Pow2(w), Pow2(m - w));
    }
  }

  lemma SmallDivision(k: nat, p: nat)
    requires k < p
    ensures k / p == 0 && k % p == k
  {
  }

  lemma LargeDivision(k: nat, p: nat, q: nat)
    requires p > 0 && k < p * q
    ensures k / p < q
  {
  }

  // ---------------------------------------------------------------- recoding

  /** What holds between two digits: xs is written, k is left. */
  ghost predicate Recoding(scalar: nat, xs: seq<int>, k: nat, w: nat)
    requires w >= 2
  {
    && Horner(xs, k) == scalar
    && Naf(xs, w) && (k != 0 ==> Clear(xs, w))
    && |xs| <= 65 && (k != 0 ==> |xs| <= 64 && k <= Pow2(64 - |xs|))
  }

  lemma EvenStep(scalar: nat, xs: seq<int>, k: nat, w: nat)
    requires w >= 2 && Recoding(scalar, xs, k, w) && k != 0 && k % 2 == 0
    ensures |xs| < 64 && Recoding(scalar, xs + [0], k / 2, w)
  {
    assert Pow2(0) == 1;
    assert [0] == Zeros(1);
    NafZeros(xs, 1, w);
    HornerSnoc(xs, 0, k / 2);
  }

  lemma OddStep(scalar: nat, xs: seq<int>, k: nat, w: nat)
    requires w >= 2 && Recoding(scalar, xs, k, w) && k % 2 == 1
    ensures var d, next := Residue(k, w), Remaining(k, w);
            && |xs| <= 64
            && (next == 0 ==> Recoding(scalar, xs + [d], 0, w))
            && (next != 0 ==> |xs| + w <= 64 && Recoding(scalar, xs + [d] + Zeros(w - 1), next, w))
  {
    var d, next := Residue(k, w), Remaining(k, w);
    ResidueSmall(k, w);
    RemainingSmall(k, w, 64 - |xs|);
    OddValue(xs, d, w, next);
    NafDigit(xs, d, w);
    hide Horner, Pow2, Naf, Clear, Residue, Remaining;
    NafZeros(xs + [d], w - 1, w);
  }

  lemma OddValue(xs: seq<int>, d: int, w: nat, next: nat)
    requires w >= 2
    ensures Horner(xs + [d] + Zeros(w - 1), next) == Horner(xs, d + Pow2(w) * next)
    ensures next == 0 ==> Horner(xs + [d], next) == Horner(xs, d + Pow2(w) * next)
  {
    var h := Pow2(w - 1);
    assert Pow2(w) == 2 * h;
    hide Horner, Pow2;
    HornerZeros(xs + [d], w - 1, next);
    HornerSnoc(xs, d, h * next);
    TwiceProduct(h, next);
    if next == 0 {
      HornerSnoc(xs, d, 0);
    }
  }

  lemma Recoded(scalar: nat, xs: seq<int>, w: nat)
    requires w >= 2 && Recoding(scalar, xs, 0, w)
    ensures Naf(xs + Zeros(65 - |xs|), w) && Value(xs + Zeros(65 - |xs|)) == scalar
  {
    hide Pow2;
    NafZeros(xs, 65 - |xs|, w);
    TrailingZeros(xs, 65 - |xs|);
  }

  lemma StartRecoding(scalar: Word, w: nat)
    requires w >= 2
    ensures Recoding(scalar, [], scalar, w)
  {
    Pow64();
  }

  method WnafRecode(scalar: Word, w: nat, digits: array<int>)
    requires 2 <= w <= 30
    requires digits.Length == 65 && digits[..] == Zeros(65)
    modifies digits
    ensures Naf(digits[..], w) && Value(digits[..]) == scalar
  {
    hide Horner, Pow2, Naf, Clear, Recoding, Value, Residue, Remaining;
    var val1, val2 := Pow2(w - 1) - 1, Pow2(w);
    var k: nat, index: nat := scalar, 0;
    StartRecoding(scalar, w);
    assert digits[..0] == [];
    while k != 0
      invariant index <= 65 && digits[index..] == Zeros(65 - index)
      invariant Recoding(scalar, digits[..index], k, w)
      decreases 65 - index, k
    {
      ghost var xs := digits[..index];
      if k % 2 == 0 {
        EvenStep(scalar, xs, k, w);
        k := k / 2;
        digits[index] := 0;
        assert digits[..index + 1] == xs + [0];
      } else {
        OddStep(scalar, xs, k, w);
        var digit, next := TakeDigit(k, w, val1, val2);
        k := next;
        digits[index] := digit;
        assert digits[..index + 1] == xs + [digit];
        if k != 0 {
          index := SkipWindow(digits, index, w);
        }
      }
      index := index + 1;
    }
    Recoded(scalar, digits[..index], w);
    assert digits[..] == digits[..index] + digits[index..];
  }

  /** The signed residue, with what it borrows given back to the rest. */
  method TakeDigit(k: nat, w: nat, val1: nat, val2: nat) returns (digit: int, next: nat)
    requires w >= 2 && val1 == Pow2(w - 1) - 1 && val2 == Pow2(w)
    ensures digit == Residue(k, w) && next == Remaining(k, w)
  {
    hide Pow2;
    digit := k % val2;
    next := k / val2;
    if digit > val1 {
      digit := digit - val2;
    }
    if digit < 0 {
      next := next + 1;
    }
  }

  /** Writes the w - 1 zero digits after a non-zero one. */
  method SkipWindow(digits: array<int>, start: nat, w: nat) returns (index: nat)
    requires w >= 2 && start + w <= digits.Length == 65
    requires digits[start + 1..] == Zeros(64 - start)
    modifies digits
    ensures index == start + w - 1 && digits[..start + 1] == old(digits[..start + 1])
    ensures digits[..index + 1] == digits[..start + 1] + Zeros(w - 1)
    ensures digits[start + 1..] == Zeros(64 - start)
  {
    index := start;
    var i := 0;
    while i < w - 1
      invariant 0 <= i <= w - 1 && index == start + i
      invariant digits[..start + 1] == old(digits[..start + 1])
      invariant digits[start + 1..] == Zeros(64 - start)
    {
      index := index + 1;
      digits[index] := 0;
      i := i + 1;
    }
    assert digits[..index + 1] == digits[..start + 1] + digits[start + 1..][..w - 1];
  }

  // ------------------------------------------------------------------ tables

  /** table[i] == (2i + 1) p. */
  ghost predicate OddMultiples<P(!new)>(g: Group<P>, table: seq<P>, p: P) {
    forall i | 0 <= i < |table| :: table[i] == Mul(g, 2 * i + 1, p)
  }

  method PrecomputeDouble<P(!new)>(g: Group<P>, p: P, table: array<P>)
    requires Abelian(g) && table.Length >= 1
    modifies table
    ensures OddMultiples(g, table[..], p)
  {
    hide Abelian, Mul;
    table[0] := p;
    var pp := g.add(p, p);
    MulOne(g, p);
    MulSum(g, 1, 1, p);
    for i := 1 to table.Length
      invariant pp == Mul(g, 2, p)
      invariant forall k | 0 <= k < i :: table[k] == Mul(g, 2 * k + 1, p)
    {
      MulSum(g, 2 * i - 1, 2, p);
      table[i] := g.add(table[i - 1], pp);
    }
  }

  /** Adds digit times p, taken from the table. */
  method AddDigit<P(!new)>(g: Group<P>, t: P, digit: int, table: seq<P>, ghost p: P) returns (r: P)
    requires Abelian(g) && OddMultiples(g, table, p)
    requires digit != 0 ==> digit % 2 == 1 && 0 - 2 * |table| < digit < 2 * |table|
    ensures r == g.add(t, Mul(g, digit, p))
  {
    hide Abelian, Mul;
    if digit < 0 {
      var position := -digit / 2;
      var u := g.neg(table[position]);
      MulNeg(g, -digit, p);
      assert 2 * position + 1 == -digit;
      r := g.add(t, u);
    } else if digit > 0 {
      var position := digit / 2;
      assert 2 * position + 1 == digit;
      r := g.add(t, table[position]);
    } else {
      MulZero(g, p);
      Zero(g, t);
      r := t;
    }
  }

  // ------------------------------------------------------------ interleaving

  /** Every row of digits fits its table. */
  ghost predicate Fits<P(!new)>(g: Group<P>, rows: seq<seq<int>>, tables: seq<seq<P>>, ps: seq<P>) {
    && |rows| == |tables| == |ps|
    && (forall j | 0 <= j < |rows| :: |rows[j]| == 65)
    && (forall j | 0 <= j < |rows| :: OddMultiples(g, tables[j], ps[j]))
    && (forall j, i | 0 <= j < |rows| && 0 <= i < |rows[j]| && rows[j][i] != 0 ::
          rows[j][i] % 2 == 1 && 0 - 2 * |tables[j]| < rows[j][i] < 2 * |tables[j]|)
  }

  /** Digit i of the first n rows. */
  function DigitColumn(rows: seq<seq<int>>, i: nat, n: nat): (cs: seq<int>)
    requires forall j | 0 <= j < |rows| :: i < |rows[j]|
    ensures |cs| == |rows|
  {
    seq(|rows|, j requires 0 <= j < |rows| => if j < n then rows[j][i] else 0)
  }

  /** The numbers that the rows stand for from digit i on. */
  function RowValues(rows: seq<seq<int>>, i: nat): (cs: seq<int>)
    requires forall j | 0 <= j < |rows| :: i <= |rows[j]|
    ensures |cs| == |rows|
  {
    seq(|rows|, j requires 0 <= j < |rows| => Value(rows[j][i..]))
  }

  lemma ColumnTerm<P(!new)>(g: Group<P>, cs: seq<int>, rows: seq<seq<int>>, i: nat, j: nat, ps: seq<P>)
    requires Abelian(g) && |cs| == |rows| == |ps| && j < |rows|
    requires forall j | 0 <= j < |rows| :: i < |rows[j]|
    ensures g.add(Comb(g, Plus(cs, DigitColumn(rows, i, j)), ps), Mul(g, rows[j][i], ps[j]))
         == Comb(g, Plus(cs, DigitColumn(rows, i, j + 1)), ps)
  {
    hide Abelian, Comb, Mul;
    var ds := Plus(cs, DigitColumn(rows, i, j));
    CombUnit(g, j, rows[j][i], ps);
    CombSum(g, ds, Unit(|ps|, j, rows[j][i]), ps);
    assert Plus(ds, Unit(|ps|, j, rows[j][i])) == Plus(cs, DigitColumn(rows, i, j + 1));
  }

  /** One pass over the rows at digit position i. */
  method AddColumn<P(!new)>(g: Group<P>, t: P, rows: seq<seq<int>>, i: nat, tables: seq<seq<P>>,
                            ghost cs: seq<int>, ghost ps: seq<P>) returns (r: P)
    requires Abelian(g) && Fits(g, rows, tables, ps) && i < 65
    requires |cs| == |ps| && t == Comb(g, cs, ps)
    ensures r == Comb(g, Plus(cs, DigitColumn(rows, i, |rows|)), ps)
  {
    hide Abelian, Comb, Mul, OddMultiples;
    r := t;
    assert Plus(cs, DigitColumn(rows, i, 0)) == cs;
    for j := 0 to |rows|
      invariant r == Comb(g, Plus(cs, DigitColumn(rows, i, j)), ps)
    {
      ColumnTerm(g, cs, rows, i, j, ps);
      r := AddDigit(g, r, rows[j][i], tables[j], ps[j]);
    }
  }

  lemma RowStep(rows: seq<seq<int>>, i: nat)
    requires forall j | 0 <= j < |rows| :: i < |rows[j]|
    ensures RowValues(rows, i) == Plus(Times(2, RowValues(rows, i + 1)), DigitColumn(rows, i, |rows|))
  {
    assert forall j | 0 <= j < |rows| :: rows[j][i..][1..] == rows[j][i + 1..];
  }

  method Interleave<P(!new)>(g: Group<P>, rows: seq<seq<int>>, tables: seq<seq<P>>, ghost ps: seq<P>) returns (t: P)
    requires Abelian(g) && Fits(g, rows, tables, ps)
    ensures t == Comb(g, RowValues(rows, 0), ps)
  {
    hide Abelian, Comb, OddMultiples, RowValues, DigitColumn, Plus, Times;
    t := g.zero;
    EmptyRows(g, rows, ps);
    for i := 65 downto 0
      invariant t == Comb(g, RowValues(rows, i), ps)
    {
      t := g.add(t, t);
      CombDouble(g, RowValues(rows, i + 1), ps);
      RowStep(rows, i);
      t := AddColumn(g, t, rows, i, tables, Times(2, RowValues(rows, i + 1)), ps);
    }
  }

  lemma EmptyRows<P(!new)>(g: Group<P>, rows: seq<seq<int>>, ps: seq<P>)
    requires Abelian(g) && |rows| == |ps| && forall j | 0 <= j < |rows| :: |rows[j]| == 65
    ensures Comb(g, RowValues(rows, 65), ps) == g.zero
  {
    hide Abelian, Comb;
    assert forall j | 0 <= j < |rows| :: rows[j][65..] == [];
    CombZero(g, RowValues(rows, 65), ps);
  }

  // -------------------------------------------------------------- entry point

  /** The four tables of a basis, laid out one after the other. */
  ghost predicate Tables<P(!new)>(g: Group<P>, table: seq<P>, n: nat, ps: seq<P>) {
    |ps| == 4 && |table| == 4 * n
    && OddMultiples(g, table[..n], ps[0]) && OddMultiples(g, table[n..2 * n], ps[1])
    && OddMultiples(g, table[2 * n..3 * n], ps[2]) && OddMultiples(g, table[3 * n..], ps[3])
  }

  lemma TablesAre<P(!new)>(g: Group<P>, table: seq<P>, ps: seq<P>)
    requires |ps| == 4 && |table| == 256
    requires forall e | 0 <= e < 256 :: table[e] == Mul(g, 2 * (e % 64) + 1, ps[e / 64])
    ensures Tables(g, table, 64, ps)
  {
    hide Mul;
    forall i | 0 <= i < 64
      ensures table[i] == Mul(g, 2 * i + 1, ps[0]) && table[64..128][i] == Mul(g, 2 * i + 1, ps[1])
      ensures table[128..192][i] == Mul(g, 2 * i + 1, ps[2]) && table[192..][i] == Mul(g, 2 * i + 1, ps[3])
    {
      assert table[64 + i] == table[64..128][i];
      assert table[128 + i] == table[128..192][i] && table[192 + i] == table[192..][i];
    }
  }

  method RecodeRow(scalar: Word, w: nat) returns (row: seq<int>)
    requires 2 <= w <= 30
    ensures |row| == 65 && Naf(row, w) && Value(row) == scalar
  {
    hide Naf, Value;
    var digits := new int[65](_ => 0);
    assert digits[..] == Zeros(65);
    WnafRecode(scalar, w, digits);
    row := digits[..];
  }

  method TableOf<P(!new)>(g: Group<P>, p: P) returns (table: seq<P>)
    requires Abelian(g)
    ensures |table| == 4 && OddMultiples(g, table, p)
  {
    hide Abelian, OddMultiples;
    var t := new P[4](_ => p);
    PrecomputeDouble(g, p, t);
    table := t[..];
  }

  lemma RowFits(row: seq<int>, w: nat)
    requires |row| == 65 && (w == 4 || w == 8) && Naf(row, w)
    ensures var n := if w == 4 then 4 else 64;
            forall i | 0 <= i < 65 && row[i] != 0 :: row[i] % 2 == 1 && 0 - 2 * n < row[i] < 2 * n
  {
    assert Pow2(3) == 8 && Pow2(7) == 128;
  }

  /** Fails exactly when q is off the curve; otherwise returns l times q plus k times the generator gs[0],
      whenever the lattice holds at both points. */
  method EccMulDouble<P(!new)>(g: Group<P>, phi: P -> P, psi: P -> P, onCurve: P -> bool,
                               doubleScalarTable: seq<P>, ghost gs: seq<P>,
                               k: seq<Word>, q: P, l: seq<Word>) returns (ok: bool, r: P)
    requires Abelian(g) && |k| == |l| == |gs| == 4 && |doubleScalarTable| == 256
    requires forall e | 0 <= e < 256 :: doubleScalarTable[e] == Mul(g, 2 * (e % 64) + 1, gs[e / 64])
    ensures ok == onCurve(q) && Wide(k) < B4 && Wide(l) < B4
    ensures ok ==> r == g.add(Comb(g, Subscalars(Wide(l)), Basis(phi, psi, q)), Comb(g, Subscalars(Wide(k)), gs))
    ensures ok && Relations(g, Basis(phi, psi, q)) && Relations(g, gs) ==>
            r == g.add(Mul(g, Wide(l), q), Mul(g, Wide(k), gs[0]))
    ensures forall p | gs == [p, phi(p), psi(p), psi(phi(p))] ::
            ok && Eigen(g, phi, psi, q) && Eigen(g, phi, psi, p) ==>
            r == g.add(Mul(g, Wide(l), q), Mul(g, Wide(k), p))
  {
    hide Abelian, Comb, Mul, Subscalars, Wide, Relations, Eigen, Tables;
    r := q;
    TablesAre(g, doubleScalarTable, gs);
    WideSplit(k);
    WideSplit(l);
    ok := onCurve(q);
    if !ok {
      return;
    }
    var ks := Decompose(k);
    var ls := Decompose(l);
    r := MultiplyBoth(g, phi, psi, doubleScalarTable, gs, ks[..], q, ls[..]);
    BasisMultiplies(g, phi, psi, q, Wide(l));
    if Relations(g, gs) {
      SubscalarsMultiply(g, Wide(k), gs);
    }
    forall p | gs == [p, phi(p), psi(p), psi(phi(p))]
      ensures Eigen(g, phi, psi, p) ==> Comb(g, Subscalars(Wide(k)), gs) == Mul(g, Wide(k), p)
    {
      BasisMultiplies(g, phi, psi, p, Wide(k));
    }
  }

  /** The sum of the two combinations with the given sub-scalars. */
  method MultiplyBoth<P(!new)>(g: Group<P>, phi: P -> P, psi: P -> P, doubleScalarTable: seq<P>, ghost gs: seq<P>,
                               k: seq<Word>, q: P, l: seq<Word>) returns (r: P)
    requires Abelian(g) && |k| == |l| == 4 && Tables(g, doubleScalarTable, 64, gs)
    ensures r == g.add(Comb(g, l, Basis(phi, psi, q)), Comb(g, k, gs))
  {
    hide Abelian, Comb, OddMultiples, Naf, Value, RowValues, Fits;
    var q2, q3 := phi(q), psi(q);
    var q4 := psi(q2);
    var rk := RecodeFour(k, 8);
    var rl := RecodeFour(l, 4);
    var t1 := TableOf(g, q);
    var t2 := TableOf(g, q2);
    var t3 := TableOf(g, q3);
    var t4 := TableOf(g, q4);
    var ts := doubleScalarTable;
    var tables := [t1, t2, t3, t4, ts[..64], ts[64..128], ts[128..192], ts[192..]];
    AllFit(g, rl, rk, tables, [q, q2, q3, q4] + gs);
    r := Interleave(g, rl + rk, tables, [q, q2, q3, q4] + gs);
    RowsStandFor(rl, rk, l, k);
    CombConcat(g, l, [q, q2, q3, q4], k, gs);
  }

  method RecodeFour(scalars: seq<Word>, w: nat) returns (rows: seq<seq<int>>)
    requires |scalars| == 4 && 2 <= w <= 30
    ensures |rows| == 4
    ensures forall j | 0 <= j < 4 :: |rows[j]| == 65 && Naf(rows[j], w) && Value(rows[j]) == scalars[j]
  {
    hide Naf, Value;
    var r1 := RecodeRow(scalars[0], w);
    var r2 := RecodeRow(scalars[1], w);
    var r3 := RecodeRow(scalars[2], w);
    var r4 := RecodeRow(scalars[3], w);
    rows := [r1, r2, r3, r4];
  }

  lemma RowsStandFor(rl: seq<seq<int>>, rk: seq<seq<int>>, l: seq<Word>, k: seq<Word>)
    requires |rl| == |rk| == |l| == |k| == 4
    requires forall j | 0 <= j < 4 :: |rl[j]| == 65 && Value(rl[j]) == l[j]
    requires forall j | 0 <= j < 4 :: |rk[j]| == 65 && Value(rk[j]) == k[j]
    ensures RowValues(rl + rk, 0) == l + k
  {
    hide Value;
    forall j | 0 <= j < 8
      ensures RowValues(rl + rk, 0)[j] == (l + k)[j]
    {
      assert (rl + rk)[j][0..] == (rl + rk)[j];
    }
  }

  lemma AllFit<P(!new)>(g: Group<P>, rl: seq<seq<int>>, rk: seq<seq<int>>, tables: seq<seq<P>>, ps: seq<P>)
    requires |rl| == |rk| == 4 && |tables| == |ps| == 8
    requires forall j | 0 <= j < 4 :: |rl[j]| == 65 && Naf(rl[j], 4)
    requires forall j | 0 <= j < 4 :: |rk[j]| == 65 && Naf(rk[j], 8)
    requires forall j | 0 <= j < 8 :: |tables[j]| == (if j < 4 then 4 else 64) && OddMultiples(g, tables[j], ps[j])
    ensures Fits(g, rl + rk, tables, ps)
  {
    hide Naf, OddMultiples;
    var rows := rl + rk;
    forall j, i | 0 <= j < 8 && 0 <= i < |rows[j]| && rows[j][i] != 0
      ensures rows[j][i] % 2 == 1 && 0 - 2 * |tables[j]| < rows[j][i] < 2 * |tables[j]|
    {
      if j < 4 {
        RowFits(rl[j], 4);
      } else {
        RowFits(rk[j - 4], 8);
      }
    }
  }
}
