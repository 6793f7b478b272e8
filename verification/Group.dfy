/** Abelian groups with an arbitrary carrier, multiples of an element and linear
    combinations of several. */
module Group {

  datatype Group<!P(!new)> = Group(zero: P, add: (P, P) -> P, neg: P -> P)

  predicate Commutes<P(!new, ==)>(g: Group<P>, a: P, b: P) {
    g.add(a, b) == g.add(b, a)
  }

  predicate Associates<P(!new, ==)>(g: Group<P>, a: P, b: P, c: P) {
    g.add(g.add(a, b), c) == g.add(a, g.add(b, c))
  }

  predicate Cancels<P(!new, ==)>(g: Group<P>, a: P) {
    g.add(a, g.zero) == a && g.add(a, g.neg(a)) == g.zero
  }

  // The laws are named, so that the solver instantiates them only where a lemma asks.
  ghost predicate Abelian<P(!new)>(g: Group<P>) {
    && (forall a, b :: Commutes(g, a, b))
    && (forall a, b, c :: Associates(g, a, b, c))
    && (forall a :: Cancels(g, a))
  }

  /** n times p. */
  function Mul<P(!new)>(g: Group<P>, n: int, p: P): P
    decreases if n >= 0 then n else -n
  {
    if n == 0 then g.zero
    else if n > 0 then g.add(p, Mul(g, n - 1, p))
    else g.add(g.neg(p), Mul(g, n + 1, p))
  }

  /** cs[0] * ps[0] + cs[1] * ps[1] + ... */
  function Comb<P(!new)>(g: Group<P>, cs: seq<int>, ps: seq<P>): P
    requires |cs| == |ps|
  {
    if cs == [] then g.zero else g.add(Mul(g, cs[0], ps[0]), Comb(g, cs[1..], ps[1..]))
  }

  // ------------------------------------------------------------ group laws

  lemma Comm<P(!new)>(g: Group<P>, a: P, b: P)
    requires Abelian(g)
    ensures g.add(a, b) == g.add(b, a)
  {
    assert Commutes(g, a, b);
  }

  lemma Assoc<P(!new)>(g: Group<P>, a: P, b: P, c: P)
    requires Abelian(g)
    ensures g.add(g.add(a, b), c) == g.add(a, g.add(b, c))
  {
    assert Associates(g, a, b, c);
  }

  lemma Zero<P(!new)>(g: Group<P>, a: P)
    requires Abelian(g)
    ensures g.add(a, g.zero) == a && g.add(g.zero, a) == a
  {
    assert Cancels(g, a) && Commutes(g, a, g.zero);
  }

  lemma Inverse<P(!new)>(g: Group<P>, a: P)
    requires Abelian(g)
    ensures g.add(a, g.neg(a)) == g.zero && g.add(g.neg(a), a) == g.zero
  {
    assert Cancels(g, a) && Commutes(g, a, g.neg(a));
  }

  /** (a + b) + (c + d) == (a + c) + (b + d). */
  lemma Interchange<P(!new)>(g: Group<P>, a: P, b: P, c: P, d: P)
    requires Abelian(g)
    ensures g.add(g.add(a, b), g.add(c, d)) == g.add(g.add(a, c), g.add(b, d))
  {
    hide Abelian;
    Assoc(g, a, b, g.add(c, d));
    Assoc(g, b, c, d);
    Comm(g, b, c);
    Assoc(g, c, b, d);
    Assoc(g, a, c, g.add(b, d));
  }

  /** -a is the only element that cancels a. */
  lemma NegUnique<P(!new)>(g: Group<P>, a: P, b: P)
    requires Abelian(g) && g.add(a, b) == g.zero
    ensures b == g.neg(a)
  {
    hide Abelian;
    Zero(g, b);
    Inverse(g, a);
    Assoc(g, g.neg(a), a, b);
    Zero(g, g.neg(a));
  }

  // --------------------------------------------------------------- multiples

  lemma MulNext<P(!new)>(g: Group<P>, n: int, p: P)
    requires Abelian(g)
    ensures Mul(g, n + 1, p) == g.add(p, Mul(g, n, p))
  {
    if n < 0 {
      hide Abelian;
      var m := Mul(g, n + 1, p);
      Assoc(g, p, g.neg(p), m);
      Inverse(g, p);
      Zero(g, m);
    }
  }

  lemma {:induction false} MulSum<P(!new)>(g: Group<P>, m: int, n: int, p: P)
    requires Abelian(g)
    ensures Mul(g, m + n, p) == g.add(Mul(g, m, p), Mul(g, n, p))
    decreases if m >= 0 then m else -m
  {
    hide Abelian, Mul;
    if m == 0 {
      MulZero(g, p);
      Zero(g, Mul(g, n, p));
    } else if m > 0 {
      MulSum(g, m - 1, n, p);
      MulNext(g, m - 1 + n, p);
      MulNext(g, m - 1, p);
      Assoc(g, p, Mul(g, m - 1, p), Mul(g, n, p));
    } else {
      MulSum(g, m + 1, n, p);
      MulNext(g, m + n, p);
      MulNext(g, m, p);
      Assoc(g, p, Mul(g, m, p), Mul(g, n, p));
      Cancel(g, p, Mul(g, m + n, p), g.add(Mul(g, m, p), Mul(g, n, p)));
    }
  }

  lemma MulZero<P(!new)>(g: Group<P>, p: P)
    ensures Mul(g, 0, p) == g.zero
  {
  }

  lemma MulOne<P(!new)>(g: Group<P>, p: P)
    requires Abelian(g)
    ensures Mul(g, 1, p) == p
  {
    hide Abelian, Mul;
    MulZero(g, p);
    MulNext(g, 0, p);
    Zero(g, p);
  }

  lemma Cancel<P(!new)>(g: Group<P>, p: P, a: P, b: P)
    requires Abelian(g) && g.add(p, a) == g.add(p, b)
    ensures a == b
  {
    hide Abelian;
    Inverse(g, p);
    Assoc(g, g.neg(p), p, a);
    Assoc(g, g.neg(p), p, b);
    Zero(g, a);
    Zero(g, b);
  }

  // ------------------------------------------------------------ combinations

  function Plus(cs: seq<int>, ds: seq<int>): (r: seq<int>)
    requires |cs| == |ds|
    ensures |r| == |cs|
  {
    seq(|cs|, i requires 0 <= i < |cs| => cs[i] + ds[i])
  }

  function Times(k: int, cs: seq<int>): (r: seq<int>)
    ensures |r| == |cs|
  {
    seq(|cs|, i requires 0 <= i < |cs| => k * cs[i])
  }

  lemma {:induction false} CombSum<P(!new)>(g: Group<P>, cs: seq<int>, ds: seq<int>, ps: seq<P>)
    requires Abelian(g) && |cs| == |ds| == |ps|
    ensures Comb(g, Plus(cs, ds), ps) == g.add(Comb(g, cs, ps), Comb(g, ds, ps))
    decreases |cs|
  {
    hide Abelian, Mul;
    if cs == [] {
      Zero(g, g.zero);
    } else {
      assert Plus(cs, ds)[1..] == Plus(cs[1..], ds[1..]);
      CombSum(g, cs[1..], ds[1..], ps[1..]);
      MulSum(g, cs[0], ds[0], ps[0]);
      Interchange(g, Mul(g, cs[0], ps[0]), Mul(g, ds[0], ps[0]), Comb(g, cs[1..], ps[1..]), Comb(g, ds[1..], ps[1..]));
    }
  }

  lemma {:induction false} CombZero<P(!new)>(g: Group<P>, cs: seq<int>, ps: seq<P>)
    requires Abelian(g) && |cs| == |ps| && forall i | 0 <= i < |cs| :: cs[i] == 0
    ensures Comb(g, cs, ps) == g.zero
    decreases |cs|
  {
    hide Abelian, Mul;
    if cs != [] {
      CombZero(g, cs[1..], ps[1..]);
      MulZero(g, ps[0]);
      Zero(g, g.zero);
    }
  }

  lemma CombNeg<P(!new)>(g: Group<P>, cs: seq<int>, ps: seq<P>)
    requires Abelian(g) && |cs| == |ps|
    ensures Comb(g, Times(-1, cs), ps) == g.neg(Comb(g, cs, ps))
  {
    hide Abelian, Comb;
    CombSum(g, cs, Times(-1, cs), ps);
    CombZero(g, Plus(cs, Times(-1, cs)), ps);
    NegUnique(g, Comb(g, cs, ps), Comb(g, Times(-1, cs), ps));
  }

  lemma CombDouble<P(!new)>(g: Group<P>, cs: seq<int>, ps: seq<P>)
    requires Abelian(g) && |cs| == |ps|
    ensures Comb(g, Times(2, cs), ps) == g.add(Comb(g, cs, ps), Comb(g, cs, ps))
  {
    hide Abelian, Comb;
    CombSum(g, cs, cs, ps);
    assert Plus(cs, cs) == Times(2, cs);
  }

  /** The combination with a single coefficient. */
  function Unit(n: nat, j: nat, c: int): (r: seq<int>)
    requires j < n
    ensures |r| == n
  {
    seq(n, i => if i == j then c else 0)
  }

  lemma {:induction false} CombUnit<P(!new)>(g: Group<P>, j: nat, c: int, ps: seq<P>)
    requires Abelian(g) && j < |ps|
    ensures Comb(g, Unit(|ps|, j, c), ps) == Mul(g, c, ps[j])
    decreases |ps|
  {
    hide Abelian, Mul;
    var u := Unit(|ps|, j, c);
    if j == 0 {
      CombZero(g, u[1..], ps[1..]);
      Zero(g, Mul(g, c, ps[0]));
    } else {
      assert u[1..] == Unit(|ps| - 1, j - 1, c);
      CombUnit(g, j - 1, c, ps[1..]);
      MulZero(g, ps[0]);
      Zero(g, Mul(g, c, ps[j]));
    }
  }

  lemma MulNeg<P(!new)>(g: Group<P>, n: int, p: P)
    requires Abelian(g)
    ensures Mul(g, -n, p) == g.neg(Mul(g, n, p))
  {
    hide Abelian, Mul;
    MulSum(g, n, -n, p);
    MulZero(g, p);
    NegUnique(g, Mul(g, n, p), Mul(g, -n, p));
  }

  lemma {:induction false} CombConcat<P(!new)>(g: Group<P>, cs: seq<int>, ps: seq<P>, ds: seq<int>, qs: seq<P>)
    requires Abelian(g) && |cs| == |ps| && |ds| == |qs|
    ensures Comb(g, cs + ds, ps + qs) == g.add(Comb(g, cs, ps), Comb(g, ds, qs))
    decreases |cs|
  {
    hide Abelian, Mul;
    if cs == [] {
      assert cs + ds == ds && ps + qs == qs;
      Zero(g, Comb(g, ds, qs));
    } else {
      assert (cs + ds)[1..] == cs[1..] + ds && (ps + qs)[1..] == ps[1..] + qs;
      CombConcat(g, cs[1..], ps[1..], ds, qs);
      Assoc(g, Mul(g, cs[0], ps[0]), Comb(g, cs[1..], ps[1..]), Comb(g, ds, qs));
    }
  }

  /** A relation among the points can be added any number of times. */
  lemma {:induction false} CombShift<P(!new)>(g: Group<P>, cs: seq<int>, n: int, vs: seq<int>, ps: seq<P>)
    requires Abelian(g) && |cs| == |vs| == |ps| && Comb(g, vs, ps) == g.zero
    ensures Comb(g, Plus(cs, Times(n, vs)), ps) == Comb(g, cs, ps)
    decreases if n >= 0 then n else -n
  {
    hide Abelian, Comb;
    if n == 0 {
      assert Plus(cs, Times(0, vs)) == cs;
    } else if n > 0 {
      CombShift(g, cs, n - 1, vs, ps);
      var ds := Plus(cs, Times(n - 1, vs));
      assert Plus(cs, Times(n, vs)) == Plus(ds, vs);
      CombSum(g, ds, vs, ps);
      Zero(g, Comb(g, ds, ps));
    } else {
      CombShift(g, cs, n + 1, vs, ps);
      var ds := Plus(cs, Times(n, vs));
      assert Plus(cs, Times(n + 1, vs)) == Plus(ds, vs);
      CombSum(g, ds, vs, ps);
      Zero(g, Comb(g, ds, ps));
    }
  }

  lemma {:induction false} MulMul<P(!new)>(g: Group<P>, m: int, n: int, p: P)
    requires Abelian(g)
    ensures Mul(g, m, Mul(g, n, p)) == Mul(g, m * n, p)
    decreases if m >= 0 then m else -m
  {
    hide Abelian, Mul;
    var q := Mul(g, n, p);
    if m == 0 {
      MulZero(g, q);
      MulZero(g, p);
    } else if m > 0 {
      MulMul(g, m - 1, n, p);
      MulSum(g, m - 1, 1, q);
      MulOne(g, q);
      MulSum(g, (m - 1) * n, n, p);
      assert (m - 1) * n + n == m * n;
    } else {
      MulMul(g, m + 1, n, p);
      MulSum(g, m + 1, -1, q);
      MulOne(g, q);
      MulNeg(g, 1, q);
      MulNeg(g, n, p);
      MulSum(g, (m + 1) * n, -n, p);
      assert (m + 1) * n - n == m * n;
    }
  }
}
