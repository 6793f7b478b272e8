/** Variable-base scalar multiplication: the table of eight points, the
    constant-time lookup, and the double-and-add loop over the recoded columns. */
module FourQMul {
  import opened Group
  import opened Words
  import opened FourQDecompose
  import opened FourQRecode

  /** The points P, phi(P), psi(P), psi(phi(P)) that the sub-scalars multiply. */
  function Basis<P>(phi: P -> P, psi: P -> P, p: P): (ps: seq<P>)
    ensures |ps| == 4
  {
    [p, phi(p), psi(p), psi(phi(p))]
  }

  /** The coefficients of table entry d. */
  function Entries(d: nat): (cs: seq<int>)
    ensures |cs| == 4
  {
    [1, DigitBit(d, 1), DigitBit(d, 2), DigitBit(d, 3)]
  }

  /** The coefficients of one signed column. */
  function Column(digit: nat, mask: nat): (cs: seq<int>)
    ensures |cs| == 4
  {
    [Entry(digit, mask, 0), Entry(digit, mask, 1), Entry(digit, mask, 2), Entry(digit, mask, 3)]
  }

  /** The table holds all eight sums of P with a subset of the other points. */
  ghost predicate IsTable<P(!new)>(g: Group<P>, table: seq<P>, ps: seq<P>) {
    |table| == 8 && |ps| == 4 && forall d | 0 <= d < 8 :: table[d] == Comb(g, Entries(d), ps)
  }

  lemma AddBasis<P(!new)>(g: Group<P>, cs: seq<int>, ps: seq<P>, j: nat)
    requires Abelian(g) && |cs| == |ps| && j < |ps| && cs[j] == 0
    ensures g.add(Comb(g, cs, ps), ps[j]) == Comb(g, cs[j := 1], ps)
  {
    hide Abelian, Comb, Mul;
    CombSum(g, cs, Unit(|ps|, j, 1), ps);
    CombUnit(g, j, 1, ps);
    MulOne(g, ps[j]);
    assert Plus(cs, Unit(|ps|, j, 1)) == cs[j := 1];
  }

  lemma FirstEntry<P(!new)>(g: Group<P>, ps: seq<P>)
    requires Abelian(g) && |ps| == 4
    ensures Comb(g, Entries(0), ps) == ps[0]
  {
    hide Abelian, Comb, Mul;
    CombUnit(g, 0, 1, ps);
    MulOne(g, ps[0]);
    assert Entries(0) == Unit(4, 0, 1);
  }

  /** Entry d + 2^(j-1) is entry d plus basis point j. */
  lemma NextEntry<P(!new)>(g: Group<P>, ps: seq<P>, d: nat, e: nat, j: nat)
    requires Abelian(g) && |ps| == 4 && 1 <= j <= 3
    requires Entries(d)[j] == 0 && Entries(e) == Entries(d)[j := 1]
    ensures g.add(Comb(g, Entries(d), ps), ps[j]) == Comb(g, Entries(e), ps)
  {
    AddBasis(g, Entries(d), ps, j);
  }

  method Precompute<P(!new)>(g: Group<P>, phi: P -> P, psi: P -> P, p: P, table: array<P>)
    requires Abelian(g) && table.Length == 8
    modifies table
    ensures IsTable(g, table[..], Basis(phi, psi, p))
  {
    hide Abelian, Comb;
    ghost var ps := Basis(phi, psi, p);
    var q := phi(p);
    var s := psi(q);
    table[0] := p;
    var r := psi(p);
    table[1] := g.add(table[0], q);
    table[2] := g.add(table[0], r);
    table[3] := g.add(table[1], r);
    table[4] := g.add(table[0], s);
    table[5] := g.add(table[1], s);
    table[6] := g.add(table[2], s);
    table[7] := g.add(table[3], s);
    FirstEntry(g, ps);
    NextEntry(g, ps, 0, 1, 1);
    NextEntry(g, ps, 0, 2, 2);
    NextEntry(g, ps, 1, 3, 2);
    NextEntry(g, ps, 0, 4, 3);
    NextEntry(g, ps, 1, 5, 3);
    NextEntry(g, ps, 2, 6, 3);
    NextEntry(g, ps, 3, 7, 3);
  }

  /** Scans the whole table; a 32-bit counter that wraps below zero stops the copying. */
  method Select<P>(table: seq<P>, digit: nat) returns (p: P)
    requires digit < |table| < 0x8000_0000
    ensures p == table[digit]
  {
    p := table[0];
    var count := digit;
    for i := 1 to |table|
      invariant count == if i - 1 <= digit then digit - (i - 1) else digit - (i - 1) + 0x1_0000_0000
      invariant p == table[if i - 1 <= digit then i - 1 else digit]
    {
      count := if count == 0 then 0xFFFF_FFFF else count - 1;
      if count < 0x8000_0000 {
        p := table[i];
      }
    }
  }

  method TableLookup<P(!new)>(g: Group<P>, table: array<P>, digit: nat, mask: nat) returns (p: P)
    requires table.Length == 8 && digit < 8
    ensures p == if mask == 0 then g.neg(table[digit]) else table[digit]
  {
    p := Select(table[..], digit);
    if mask == 0 {
      p := g.neg(p);
    }
  }

  lemma LookupColumn<P(!new)>(g: Group<P>, table: seq<P>, ps: seq<P>, digit: nat, mask: nat)
    requires Abelian(g) && IsTable(g, table, ps) && digit < 8
    ensures (if mask == 0 then g.neg(table[digit]) else table[digit]) == Comb(g, Column(digit, mask), ps)
  {
    hide Abelian, Comb, DigitBit;
    if mask == 0 {
      CombNeg(g, Entries(digit), ps);
      assert Times(-1, Entries(digit)) == Column(digit, mask);
    } else {
      assert Entries(digit) == Column(digit, mask);
    }
  }

  /** Doubling and adding column i turns the columns above i into those from i on. */
  lemma ColumnStep(digits: seq<nat>, masks: seq<nat>)
    requires |digits| == |masks| >= 1
    ensures Coefficients(digits, masks) ==
            Plus(Times(2, Coefficients(digits[1..], masks[1..])), Column(digits[0], masks[0]))
  {
    hide Entry;
    assert forall j: nat :: Row(digits, masks, j)[1..] == Row(digits[1..], masks[1..], j);
  }

  lemma DoubleAdd<P(!new)>(g: Group<P>, ps: seq<P>, cs: seq<int>, ds: seq<int>)
    requires Abelian(g) && |cs| == |ds| == |ps|
    ensures g.add(g.add(Comb(g, cs, ps), Comb(g, cs, ps)), Comb(g, ds, ps)) == Comb(g, Plus(Times(2, cs), ds), ps)
  {
    hide Abelian, Comb;
    CombDouble(g, cs, ps);
    CombSum(g, Times(2, cs), ds, ps);
  }

  lemma MultiplyStep<P(!new)>(g: Group<P>, table: seq<P>, ps: seq<P>, digits: seq<nat>, masks: seq<nat>, i: nat)
    requires Abelian(g) && IsTable(g, table, ps)
    requires |digits| == |masks| && i < |digits| && digits[i] < 8
    ensures var r := Comb(g, Coefficients(digits[i + 1..], masks[i + 1..]), ps);
            var s := if masks[i] == 0 then g.neg(table[digits[i]]) else table[digits[i]];
            g.add(g.add(r, r), s) == Comb(g, Coefficients(digits[i..], masks[i..]), ps)
  {
    hide Abelian, Comb, Coefficients, Column;
    LookupColumn(g, table, ps, digits[i], masks[i]);
    ColumnStep(digits[i..], masks[i..]);
    assert digits[i..][1..] == digits[i + 1..] && masks[i..][1..] == masks[i + 1..];
    DoubleAdd(g, ps, Coefficients(digits[i + 1..], masks[i + 1..]), Column(digits[i], masks[i]));
  }

  lemma TopColumn(digits: seq<nat>, masks: seq<nat>)
    requires |digits| == |masks| == 1
    ensures Coefficients(digits, masks) == Column(digits[0], masks[0])
  {
    ColumnStep(digits, masks);
    assert Coefficients([], []) == [0, 0, 0, 0];
    assert digits[1..] == [] && masks[1..] == [];
  }

  /** The multiplication proper: the result is the combination of the four basis
      points with the four sub-scalars, the first one taken as odd. */
  method Multiply<P(!new)>(g: Group<P>, phi: P -> P, psi: P -> P, p: P, scalars: array<Word>) returns (r: P)
    requires Abelian(g) && scalars.Length == 4
    modifies scalars
    ensures r == Comb(g, [Odd(old(scalars[0])), old(scalars[1]), old(scalars[2]), old(scalars[3])], Basis(phi, psi, p))
  {
    hide Abelian, Comb, Coefficients, Odd, Column, IsTable;
    ghost var ps := Basis(phi, psi, p);
    ghost var cs := [Odd(scalars[0]), scalars[1], scalars[2], scalars[3]];
    var digits, masks := new nat[65], new nat[65];
    var table := new P[8](_ => p);
    Recode(scalars, digits, masks);
    Precompute(g, phi, psi, p, table);
    r := DoubleAndAdd(g, table, digits, masks, ps);
  }

  method DoubleAndAdd<P(!new)>(g: Group<P>, table: array<P>, digits: array<nat>, masks: array<nat>, ghost ps: seq<P>)
      returns (r: P)
    requires Abelian(g) && table.Length == 8 && IsTable(g, table[..], ps)
    requires digits.Length == masks.Length == 65 && forall i | 0 <= i < 65 :: digits[i] < 8
    ensures |ps| == 4 && r == Comb(g, Coefficients(digits[..], masks[..]), ps)
  {
    assert |ps| == 4;
    hide Abelian, Comb, Coefficients, Column, IsTable;
    ghost var ds, ms, ts := digits[..], masks[..], table[..];
    r := TableLookup(g, table, digits[64], masks[64]);
    LookupColumn(g, ts, ps, ds[64], ms[64]);
    TopColumn(ds[64..], ms[64..]);
    for i := 64 downto 0
      invariant r == Comb(g, Coefficients(ds[i..], ms[i..]), ps)
    {
      MultiplyStep(g, ts, ps, ds, ms, i);
      var s := TableLookup(g, table, digits[i], masks[i]);
      r := g.add(r, r);
      r := g.add(r, s);
    }
    assert ds[0..] == ds && ms[0..] == ms;
  }

  // -------------------------------------------------------------- entry point

  lemma OddStays(s: Word)
    requires s % 2 == 1
    ensures Odd(s) == s
  {
  }

  lemma DoubleMul<P(!new)>(g: Group<P>, n: int, p: P)
    requires Abelian(g)
    ensures g.add(Mul(g, n, p), Mul(g, n, p)) == Mul(g, 2 * n, p)
    ensures g.add(Mul(g, n, p), p) == Mul(g, n + 1, p)
  {
    hide Abelian, Mul;
    MulSum(g, n, n, p);
    MulNext(g, n, p);
    Comm(g, p, Mul(g, n, p));
  }

  /** 392 = ((2 + 1) * 16 + 1) * 8. */
  method ClearCofactor<P(!new)>(g: Group<P>, p: P) returns (r: P)
    requires Abelian(g)
    ensures r == Mul(g, 392, p)
  {
    hide Abelian, Mul;
    MulOne(g, p);
    r := p;
    r := g.add(r, r);
    DoubleMul(g, 1, p);
    r := g.add(r, p);
    DoubleMul(g, 2, p);
    r := g.add(r, r);
    DoubleMul(g, 3, p);
    r := g.add(r, r);
    DoubleMul(g, 6, p);
    r := g.add(r, r);
    DoubleMul(g, 12, p);
    r := g.add(r, r);
    DoubleMul(g, 24, p);
    r := g.add(r, p);
    DoubleMul(g, 48, p);
    r := g.add(r, r);
    DoubleMul(g, 49, p);
    r := g.add(r, r);
    DoubleMul(g, 98, p);
    r := g.add(r, r);
    DoubleMul(g, 196, p);
  }

  /** The sub-scalars multiply the basis to k p where the lattice holds, and so wherever phi and psi
      multiply by their eigenvalues. */
  lemma BasisMultiplies<P(!new)>(g: Group<P>, phi: P -> P, psi: P -> P, p: P, k: nat)
    requires Abelian(g) && k < B4
    ensures Relations(g, Basis(phi, psi, p)) || Eigen(g, phi, psi, p) ==>
            Comb(g, Subscalars(k), Basis(phi, psi, p)) == Mul(g, k, p)
  {
    hide Abelian, Comb, Mul, Subscalars, Relations, Eigen;
    if Eigen(g, phi, psi, p) {
      EigenRelations(g, phi, psi, p);
    }
    if Relations(g, Basis(phi, psi, p)) {
      SubscalarsMultiply(g, k, Basis(phi, psi, p));
    }
  }

  /** Fails exactly on points off the curve. Otherwise the sub-scalars of k multiply the four basis
      points of p, or of 392 p, which amounts to k times that point wherever the lattice holds, in
      particular wherever phi and psi multiply by their eigenvalues. */
  method EccMul<P(!new)>(g: Group<P>, phi: P -> P, psi: P -> P, onCurve: P -> bool, p: P, k: seq<Word>, clear: bool)
      returns (ok: bool, q: P)
    requires Abelian(g) && |k| == 4
    ensures ok == onCurve(p)
    ensures var r := if clear then Mul(g, 392, p) else p;
            && Wide(k) < B4
            && (ok ==> q == Comb(g, Subscalars(Wide(k)), Basis(phi, psi, r)))
            && (ok && Relations(g, Basis(phi, psi, r)) ==> q == Mul(g, Wide(k), r))
            && (ok && Eigen(g, phi, psi, r) ==> q == Mul(g, Wide(k), r))
  {
    hide Abelian, Comb, Odd, Mul, Subscalars, Wide, Relations, Eigen;
    q := p;
    var scalars := Decompose(k);
    if !onCurve(p) {
      return false, q;
    }
    var r := p;
    if clear {
      r := ClearCofactor(g, p);
    }
    OddStays(scalars[0]);
    ghost var cs := Subscalars(Wide(k));
    assert cs == [Odd(scalars[0]), scalars[1], scalars[2], scalars[3]];
    q := Multiply(g, phi, psi, r, scalars);
    ok := true;
    BasisMultiplies(g, phi, psi, r, Wide(k));
  }
}
