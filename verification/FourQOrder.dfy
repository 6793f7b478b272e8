/** Arithmetic modulo the order of the curve's group on arrays of 64-bit words: addition and
    subtraction with carries, schoolbook multiplication, and Montgomery reduction. */
module FourQOrder {
  import opened Group
  import opened Positional
  import opened Words

  const ORDER: nat := 0x0029CBC14E5E0A72_F05397829CBC14E5_DFBD004DFE0F7999_2FB2540EC7768CE7
  const ORDER_WORDS: seq<Word> := [0x2FB2540EC7768CE7, 0xDFBD004DFE0F7999, 0xF05397829CBC14E5, 0x0029CBC14E5E0A72]
  const BIG_R_PRIME: seq<Word> := [0xC81DB8795FF3D621, 0x173EA5AAEA6B387D, 0x3D01B7C72136F61C, 0x0006A5F16AC8F9D3]
  const SMALL_R_PRIME: seq<Word> := [0xE12FE5F079BC3929, 0xD75E78B8D1FCDCF3, 0xBCE409ED76B5DB21, 0xF32702FDAFC1C074]

  // ----------------------------------------------- multiples of a group element

  lemma {:induction false} MulMod<P(!new)>(g: Group<P>, k: nat, p: P)
    requires Abelian(g) && Mul(g, ORDER, p) == g.zero
    ensures Mul(g, k % ORDER, p) == Mul(g, k, p)
    decreases k
  {
    hide Abelian, Mul;
    if k >= ORDER {
      MulMod(g, k - ORDER, p);
      MulSum(g, k - ORDER, ORDER, p);
      Zero(g, Mul(g, k - ORDER, p));
    }
  }

  lemma MulOrder<P(!new)>(g: Group<P>, m: int, n: int, p: P)
    requires Abelian(g) && Mul(g, ORDER, p) == g.zero
    ensures Mul(g, m + ORDER * n, p) == Mul(g, m, p)
  {
    hide Abelian, Mul;
    MulSum(g, m, n * ORDER, p);
    MulMul(g, n, ORDER, p);
    MulOfZero(g, n);
    Zero(g, Mul(g, m, p));
  }

  lemma {:induction false} MulOfZero<P(!new)>(g: Group<P>, n: int)
    requires Abelian(g)
    ensures Mul(g, n, g.zero) == g.zero
  {
    hide Abelian, Mul;
    MulZero(g, g.zero);
    MulMul(g, n, 0, g.zero);
  }

  // ----------------------------------------------------------- numbers of words

  /** The number that the words stand for, least significant first. */
  function Num(ws: seq<Word>): nat {
    Val(U64, ws)
  }

  function Place64(i: nat): nat {
    Pow(U64, i)
  }

  lemma PlaceNext(i: nat)
    ensures Place64(0) == 1 && Place64(i + 1) == U64 * Place64(i) && Num([]) == 0
  {
  }

  lemma PlaceSum(i: nat, j: nat)
    ensures Place64(i + j) == Place64(i) * Place64(j)
  {
    PowAdd(U64, i, j);
  }

  lemma NumNext(ws: seq<Word>, i: nat)
    requires i < |ws|
    ensures Num(ws[..i + 1]) == Num(ws[..i]) + ws[i] * Place64(i)
  {
    assert ws[..i + 1] == ws[..i] + [ws[i]];
    hide Pow;
    ValConcat(U64, ws[..i], [ws[i]]);
    assert Val(U64, [ws[i]]) == ws[i];
  }

  lemma NumSplit(ws: seq<Word>, i: nat)
    requires i <= |ws|
    ensures Num(ws) == Num(ws[..i]) + Place64(i) * Num(ws[i..])
  {
    assert ws == ws[..i] + ws[i..];
    ValConcat(U64, ws[..i], ws[i..]);
  }

  lemma NumBound(ws: seq<Word>)
    ensures Num(ws) < Place64(|ws|)
  {
    ValBound(U64, ws);
  }

  lemma FourWords(ws: seq<Word>)
    requires |ws| == 4
    ensures Num(ws) == Wide(ws) < Place64(4) == B4
  {
    NumBound(ws);
    PlaceFour();
    hide Pow, Val, Place64;
    NumFour(ws);
  }

  lemma PlaceFour()
    ensures Place64(4) == B4 && Place64(8) == B4 * B4
  {
    PlaceNext(0);
    PlaceNext(1);
    PlaceNext(2);
    PlaceNext(3);
    PlaceSum(4, 4);
  }

  lemma NumFour(ws: seq<Word>)
    requires |ws| == 4
    ensures Num(ws) == Wide(ws)
  {
    hide Num, Place64;
    assert ws[..4] == ws && ws[..0] == [];
    PlaceNext(0);
    PlaceNext(1);
    PlaceNext(2);
    NumNext(ws, 0);
    NumNext(ws, 1);
    NumNext(ws, 2);
    NumNext(ws, 3);
  }

  // --------------------------------------------------------- add and subtract

  lemma AddStep(s: nat, x: nat, y: nat, carry: nat, p: nat, t: nat)
    requires t == x + y + carry
    ensures s + (t % U64) * p + (t / U64) * (U64 * p) == s + x * p + y * p + carry * p
  {
    var v, c := t % U64, t / U64;
    assert t == v + U64 * c;
    calc {
      v * p + c * (U64 * p);
      (v + U64 * c) * p;
      x * p + y * p + carry * p;
    }
  }

  /** c := a + b; c may be one of the operands, for word i is read before it is written. */
  method Add(a: seq<Word>, b: seq<Word>, c: array<Word>) returns (carry: nat)
    requires |a| == |b| == c.Length
    modifies c
    ensures carry <= 1 && Num(c[..]) + carry * Place64(|a|) == Num(a) + Num(b)
  {
    hide Num, Place64;
    carry := 0;
    PlaceNext(0);
    assert c[..0] == a[..0] == b[..0] == [];
    for i := 0 to |a|
      invariant carry <= 1
      invariant Num(c[..i]) + carry * Place64(i) == Num(a[..i]) + Num(b[..i])
    {
      ghost var s := Num(c[..i]);
      var t: nat := a[i] + b[i] + carry;
      AddStep(s, a[i], b[i], carry, Place64(i), t);
      c[i] := t % U64;
      carry := t / U64;
      NumNext(c[..], i);
      assert c[..][..i] == c[..i] && c[..][..i + 1] == c[..i + 1];
      NumNext(a, i);
      NumNext(b, i);
      PlaceNext(i);
    }
    assert c[..|a|] == c[..] && a[..|a|] == a && b[..|b|] == b;
  }

  lemma SubtractStep(x: nat, y: nat, borrow: nat, p: nat, v: nat, next: nat)
    requires v == x - y - borrow + U64 * next
    ensures v * p == x * p - y * p - borrow * p + next * (U64 * p)
  {
  }

  /** c := a - b, with a borrow where b is the larger one. */
  method Subtract(a: seq<Word>, b: seq<Word>, c: array<Word>) returns (borrow: nat)
    requires |a| == |b| == c.Length
    modifies c
    ensures borrow <= 1 && Num(c[..]) == Num(a) - Num(b) + borrow * Place64(|a|)
  {
    hide Num, Place64;
    borrow := 0;
    PlaceNext(0);
    assert c[..0] == a[..0] == b[..0] == [];
    for i := 0 to |a|
      invariant borrow <= 1
      invariant Num(c[..i]) == Num(a[..i]) - Num(b[..i]) + borrow * Place64(i)
    {
      var t := a[i] - b[i] - borrow;
      var next := if t < 0 then 1 else 0;
      SubtractStep(a[i], b[i], borrow, Place64(i), t + U64 * next, next);
      c[i] := t + U64 * next;
      borrow := next;
      NumNext(c[..], i);
      assert c[..][..i] == c[..i] && c[..][..i + 1] == c[..i + 1];
      NumNext(a, i);
      NumNext(b, i);
      PlaceNext(i);
    }
    assert c[..|a|] == c[..] && a[..|a|] == a && b[..|b|] == b;
  }

  // ----------------------------------------------------------------- multiply

  lemma CarryFits(uv: nat, u: Word, w: Word)
    requires uv <= TOP
    ensures var sum := Low(uv) + u;
            var total := w + Low(sum);
            var next := High(uv) + High(sum) + High(total);
            next < U64 && Low(total) < U64 && Low(total) + U64 * next == uv + u + w
  {
  }

  lemma NoWrap(x: nat, y: nat, z: nat)
    requires x + y + z < U64
    ensures Add64(x, y) == x + y && Add64(x + y, z) == x + y + z
  {
  }

  /** One product is added in; the carry still fits a word. */
  method MultiplyAdd(x: Word, y: Word, u: Word, w: Word) returns (v: Word, next: Word)
    ensures v + U64 * next == Product(x, y) + u + w
  {
    hide Product, Low, High, Add64;
    var uv := Product(x, y);
    CarryFits(uv, u, w);
    var sum := Low(uv) + u;
    next := Add64(High(uv), High(sum));
    var total := w + Low(sum);
    NoWrap(High(uv), High(sum), High(total));
    next := Add64(next, High(total));
    v := Low(total);
  }

  /** x times n, i words up. */
  function Row(x: nat, i: nat, n: nat): nat {
    x * (Place64(i) * n)
  }

  lemma RowStep(s: nat, was: nat, nb: nat, i: nat, j: nat, x: Word, y: Word, u: nat, w: nat, v: nat, next: nat)
    requires s + Times64(u, Place64(i + j)) == was + Row(x, i, nb)
    requires v + U64 * next == Product(x, y) + u + w
    ensures s + v * Place64(i + j) + Times64(next, Place64(i + j + 1)) ==
            was + w * Place64(i + j) + Row(x, i, nb + y * Place64(j))
  {
    PlaceSum(i, j);
    PlaceNext(i + j);
    hide Place64;
    RowArithmetic(s, was, nb, Place64(i), Place64(j), Place64(i + j), x, y, u, w, v, next);
  }

  lemma RowArithmetic(s: nat, was: nat, nb: nat, pi: nat, pj: nat, p: nat,
                      x: nat, y: nat, u: nat, w: nat, v: nat, next: nat)
    requires s + u * p == was + x * (pi * nb)
    requires p == pi * pj && v + U64 * next == x * y + u + w
    ensures s + v * p + next * (U64 * p) == was + w * p + x * (pi * (nb + y * pj))
  {
    calc {
      v * p + next * (U64 * p);
      (v + U64 * next) * p;
      (x * y + u + w) * p;
      (x * y) * p + u * p + w * p;
    }
    assert (x * y) * p == x * (pi * (y * pj));
    assert x * (pi * (nb + y * pj)) == x * (pi * nb) + x * (pi * (y * pj));
  }

  lemma RowEnds(x: nat, i: nat, u: nat, p: nat)
    ensures Row(x, i, 0) == 0 && Times64(0, p) == 0 && Times64(u, p) == u * p
  {
  }

  /** Adds x * b to the number in c, i words up. */
  method MultiplyRow(x: Word, b: seq<Word>, c: array<Word>, i: nat)
    requires i + |b| < c.Length
    modifies c
    ensures forall m | i + |b| < m < c.Length :: c[m] == old(c[m])
    ensures Num(c[..i + |b| + 1]) == old(Num(c[..i + |b|])) + Row(x, i, Num(b))
  {
    hide Num, Place64, Row, Product, Times64;
    ghost var was := c[..];
    var u: Word := 0;
    PlaceNext(0);
    RowEnds(x, i, 0, Place64(i));
    assert b[..0] == [];
    for j := 0 to |b|
      invariant forall m | i + j <= m < c.Length :: c[m] == was[m]
      invariant Num(c[..i + j]) + Times64(u, Place64(i + j)) == Num(was[..i + j]) + Row(x, i, Num(b[..j]))
    {
      ghost var cs := c[..];
      var v, next := MultiplyAdd(x, b[j], u, c[i + j]);
      RowStep(Num(c[..i + j]), Num(was[..i + j]), Num(b[..j]), i, j, x, b[j], u, c[i + j], v, next);
      c[i + j] := v;
      u := next;
      NumNext(c[..], i + j);
      assert c[..][..i + j] == cs[..i + j] && c[..][..i + j + 1] == c[..i + j + 1];
      NumNext(was, i + j);
      NumNext(b, j);
    }
    ghost var cs := c[..];
    c[i + |b|] := u;
    NumNext(c[..], i + |b|);
    assert c[..][..i + |b|] == cs[..i + |b|] && c[..][..i + |b| + 1] == c[..i + |b| + 1];
    RowEnds(x, i, u, Place64(i + |b|));
    assert b[..|b|] == b;
  }

  lemma RowsNext(s: nat, x: nat, i: nat, nb: nat)
    ensures s * nb + Row(x, i, nb) == (s + x * Place64(i)) * nb
  {
  }

  /** c := a * b. */
  method Multiply(a: seq<Word>, b: seq<Word>, c: array<Word>)
    requires |a| == |b| && c.Length == 2 * |a|
    modifies c
    ensures Num(c[..]) == Num(a) * Num(b)
  {
    hide Num, Place64, Row;
    for i := 0 to c.Length
      invariant c[..i] == seq(i, _ => 0)
    {
      c[i] := 0;
    }
    NoRows(c[..|b|]);
    assert a[..0] == [];
    PlaceNext(0);
    for i := 0 to |a|
      invariant Num(c[..i + |b|]) == Num(a[..i]) * Num(b)
    {
      MultiplyRow(a[i], b, c, i);
      NumNext(a, i);
      RowsNext(Num(a[..i]), a[i], i, Num(b));
    }
    assert c[..|a| + |b|] == c[..] && a[..|a|] == a;
  }

  lemma NoRows(ws: seq<Word>)
    requires ws == seq(|ws|, _ => 0)
    ensures Num(ws) == 0
  {
    ValZero(U64, ws);
  }

  // --------------------------------------------------------------- Montgomery

  predicate Congruent(x: int, y: int) {
    (x - y) % ORDER == 0
  }

  lemma CongruentIf(x: int, y: int, n: int)
    requires x == y + ORDER * n
    ensures Congruent(x, y)
  {
    MultipleVanishes(x - y, n);
  }

  lemma MultipleVanishes(x: int, n: int)
    requires x == ORDER * n
    ensures x % ORDER == 0
  {
  }

  lemma CongruentBy(x: int, y: int) returns (n: int)
    requires Congruent(x, y)
    ensures x == y + ORDER * n
  {
    n := (x - y) / ORDER;
  }

  // The constants as numbers.
  const BIG: nat := 0x0006A5F16AC8F9D3_3D01B7C72136F61C_173EA5AAEA6B387D_C81DB8795FF3D621
  const SMALL: nat := 0xF32702FDAFC1C074_BCE409ED76B5DB21_D75E78B8D1FCDCF3_E12FE5F079BC3929
  const INVERSE: nat := 0x2624492BE10FE5FD337441973479A03EB7111BCBF043BA8169D7C311D50560
  const UPPER: nat := 0xE99E402CC28160AEDB2811BE2168F5853E3F2523AD0030D01DD5A4E7C011760F

  lemma Constants()
    ensures Wide(ORDER_WORDS) == ORDER && Wide(BIG_R_PRIME) == BIG < ORDER && Wide(SMALL_R_PRIME) == SMALL
    ensures 2 * ORDER < B4
    ensures ORDER * SMALL + 1 == B4 * 0x27B2C704D8C6D10DD5B24AC38118775D78FA35B9B3D9C001C9FA340FC44477
    ensures B4 * B4 == BIG + ORDER * 0x62000000000000000000000000000002251809210C372291EA1E6858D0481F6A449
    ensures B4 * B4 * INVERSE == 1 + ORDER * (B4 * UPPER + SMALL)
  {
  }

  lemma Vanishes(p0: nat, p1: nat, q: nat, h: nat, o: nat, r: nat, l: nat, b: nat)
    requires p0 * r == q + b * h && o * r + 1 == b * l
    ensures p0 + b * p1 + q * o == b * (p1 + p0 * l - h * o)
  {
    calc {
      q * o;
      (p0 * r - b * h) * o;
      p0 * (o * r) - b * (h * o);
      p0 * (b * l - 1) - b * (h * o);
      b * (p0 * l) - p0 - b * (h * o);
    }
  }

  /** Adding the right multiple of the order clears the low 256 bits and stays below twice the order. */
  lemma Reduced(p: nat, p0: nat, p1: nat, q: nat, h: nat) returns (t: nat)
    requires p == p0 + B4 * p1 && p < B4 * ORDER
    requires p0 * SMALL == q + B4 * h && q < B4
    ensures p + q * ORDER == B4 * t && t < 2 * ORDER
  {
    Constants();
    var l := 0x27B2C704D8C6D10DD5B24AC38118775D78FA35B9B3D9C001C9FA340FC44477;
    Vanishes(p0, p1, q, h, ORDER, SMALL, l, B4);
    var n := p1 + p0 * l - h * ORDER;
    assert p + q * ORDER == B4 * n;
    hide *;
    t := BelowTwice(p, q, n);
  }

  lemma BelowTwice(p: nat, q: nat, n: int) returns (t: nat)
    requires p < B4 * ORDER && q < B4 && p + q * ORDER == B4 * n
    ensures t == n < 2 * ORDER
  {
    MulMonotone(q, B4, ORDER);
    t := n;
  }

  /** The eight words of a sum that the order's multiple has cleared below. */
  lemma UpperHalf(temp: seq<Word>, cout: nat, t: nat)
    requires |temp| == 8 && Num(temp) + cout * Place64(8) == B4 * t && t < 2 * ORDER
    ensures cout == 0 && Wide(temp[4..]) == t
  {
    hide Num, Place64, Wide;
    Constants();
    PlaceFour();
    NumSplit(temp, 4);
    FourWords(temp[..4]);
    FourWords(temp[4..]);
    hide *;
    Halves(Num(temp[..4]), Num(temp[4..]), cout, t);
  }

  lemma Halves(low: nat, high: nat, cout: nat, t: nat)
    requires low < B4 && high < B4 && t < B4
    requires low + B4 * high + cout * (B4 * B4) == B4 * t
    ensures cout == 0 && high == t
  {
  }

  lemma Quotient(p: seq<Word>, q: seq<Word>, temp: seq<Word>) returns (t: nat)
    requires |p| == |q| == |temp| == 8 && Num(p) < B4 * ORDER
    requires Num(q) == Num(p[..4]) * Num(SMALL_R_PRIME)
    requires Num(temp) == Num(q[..4]) * Num(ORDER_WORDS)
    ensures Num(p) + Num(temp) == B4 * t && t < 2 * ORDER && Num(temp) == Num(q[..4]) * ORDER
  {
    hide Num, Place64, Wide;
    Constants();
    FourWords(SMALL_R_PRIME);
    FourWords(ORDER_WORDS);
    NumSplit(p, 4);
    NumSplit(q, 4);
    FourWords(q[..4]);
    t := Reduced(Num(p), Num(p[..4]), Num(p[4..]), Num(q[..4]), Num(q[4..]));
  }

  /** mc := (p + n * order) / 2^256 for the n that makes it exact. */
  method Reduce(p: seq<Word>, mc: array<Word>) returns (cout: nat, ghost n: nat)
    requires |p| == 8 && mc.Length == 4 && Num(p) < B4 * ORDER
    modifies mc
    ensures cout == 0 && Wide(mc[..]) < 2 * ORDER
    ensures Num(p) + n * ORDER == B4 * Wide(mc[..])
  {
    hide Num, Place64, Wide;
    var q, temp := new Word[8](_ => 0), new Word[8](_ => 0);
    Multiply(p[..4], SMALL_R_PRIME, q);
    Multiply(q[..4], ORDER_WORDS, temp);
    ghost var t := Quotient(p, q[..], temp[..]);
    n := Num(q[..4]);
    assert q[..][..4] == q[..4];
    cout := Add(p, temp[..], temp);
    UpperHalf(temp[..], cout, t);
    CopyUpper(temp[..], mc);
  }

  method CopyUpper(temp: seq<Word>, mc: array<Word>)
    requires |temp| == 8 && mc.Length == 4
    modifies mc
    ensures mc[..] == temp[4..]
  {
    for i := 0 to 4
      invariant mc[..i] == temp[4..4 + i]
    {
      mc[i] := temp[4 + i];
    }
    assert mc[..4] == mc[..] && temp[4..8] == temp[4..];
  }

  lemma NoWords()
    ensures Wide([0, 0, 0, 0]) == 0
  {
  }

  /** The final subtraction from the number with its carry in front; the carry turns out to be zero, so the
      mask is all ones or zero. */
  method ReduceOnce(mc: array<Word>, cout: nat)
    requires mc.Length == 4 && Wide(mc[..]) + cout * B4 < 2 * ORDER
    modifies mc
    ensures Wide(mc[..]) < ORDER
    ensures Wide(mc[..]) == old(Wide(mc[..])) || Wide(mc[..]) == old(Wide(mc[..])) - ORDER
  {
    hide Num, Place64, Wide;
    Constants();
    FourWords(mc[..]);
    FourWords(ORDER_WORDS);
    assert cout == 0;
    var bout := Subtract(mc[..], ORDER_WORDS, mc);
    FourWords(mc[..]);
    var masked := if cout < bout then ORDER_WORDS else [0, 0, 0, 0];
    NoWords();
    FourWords(masked);
    var carry := Add(mc[..], masked, mc);
    FourWords(mc[..]);
  }

  /** c := a * b / 2^256 modulo the order; only one factor need be reduced. */
  method MontgomeryMultiply(ma: seq<Word>, mb: seq<Word>, mc: array<Word>)
    requires |ma| == |mb| == mc.Length == 4 && Wide(mb) < ORDER
    modifies mc
    ensures Wide(mc[..]) < ORDER
    ensures Congruent(Wide(mc[..]) * B4, Wide(ma) * Wide(mb))
  {
    hide Num, Place64, Wide, Congruent;
    FourWords(ma);
    FourWords(mb);
    MulStrict(Wide(ma), B4, Wide(mb), ORDER);
    var p := new Word[8](_ => 0);
    Multiply(ma, mb, p);
    ghost var x := Num(p[..]);
    var cout, n := Reduce(p[..], mc);
    ghost var t := Wide(mc[..]);
    ReduceOnce(mc, cout);
    ReducedProduct(x, n, t, Wide(mc[..]));
  }

  lemma ReducedProduct(x: nat, q: nat, t: nat, c: nat)
    requires x + q * ORDER == B4 * t && (c == t || c == t - ORDER)
    ensures Congruent(c * B4, x)
  {
    hide Congruent;
    CongruentIf(c * B4, x, if c == t then q else q - B4);
  }

  /** c := a modulo the order, for every 256-bit a. */
  method ModuloOrder(a: seq<Word>, c: array<Word>)
    requires |a| == c.Length == 4
    modifies c
    ensures Wide(c[..]) == Wide(a) % ORDER
  {
    hide Wide, Congruent;
    Constants();
    var ma := new Word[4](_ => 0);
    var one: seq<Word> := [1, 0, 0, 0];
    assert Wide(one) == 1 by { OneIs(); }
    MontgomeryMultiply(a, BIG_R_PRIME, ma);
    MontgomeryMultiply(ma[..], one, c);
    Residue(Wide(a), Wide(ma[..]), Wide(c[..]));
  }

  lemma OneIs()
    ensures Wide([1, 0, 0, 0]) == 1
  {
  }

  lemma Residue(a: nat, ma: nat, c: nat)
    requires Congruent(ma * B4, a * BIG) && Congruent(c * B4, ma * 1) && c < ORDER
    ensures c == a % ORDER
  {
    Constants();
    hide *;
    var n1 := CongruentBy(ma * B4, a * BIG);
    var n2 := CongruentBy(c * B4, ma * 1);
    var m := 0x62000000000000000000000000000002251809210C372291EA1E6858D0481F6A449;
    var j := B4 * UPPER + SMALL;
    Cancelled(a, ma, c, n1, n2, B4, BIG, ORDER, m);
    Inverted(c - a, B4 * B4, ORDER, n1 + n2 * B4 - a * m, INVERSE, j);
    RemainderIs(a, c, (n1 + n2 * B4 - a * m) * INVERSE - (c - a) * j);
  }

  lemma Cancelled(a: nat, ma: nat, c: nat, n1: int, n2: int, b: nat, big: nat, o: nat, m: nat)
    requires ma * b == a * big + o * n1 && c * b == ma + o * n2 && b * b == big + o * m
    ensures (c - a) * (b * b) == o * (n1 + n2 * b - a * m)
  {
    calc {
      c * (b * b);
      (c * b) * b;
      ma * b + o * (n2 * b);
      a * big + o * n1 + o * (n2 * b);
      a * (b * b) - o * (a * m) + o * n1 + o * (n2 * b);
    }
  }

  lemma Inverted(d: int, bb: nat, o: nat, n: int, inverse: nat, j: nat)
    requires d * bb == o * n && bb * inverse == 1 + o * j
    ensures d == o * (n * inverse - d * j)
  {
    calc {
      o * (n * inverse);
      (o * n) * inverse;
      d * (bb * inverse);
      d + o * (d * j);
    }
  }

  lemma RemainderIs(a: nat, c: nat, n: int)
    requires c - a == ORDER * n && c < ORDER
    ensures c == a % ORDER
  {
  }
}
