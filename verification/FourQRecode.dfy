/** Recoding of the four sub-scalars of a variable-base multiplication into 65
    signed columns. */
module FourQRecode {
  import opened Bits
  import opened Radix2
  import opened Words

  const ALL_ONES: nat := 0xFFFF_FFFF

  /** An all-ones mask marks a positive column. */
  function Sign(mask: nat): int {
    if mask == 0 then -1 else 1
  }

  /** Bit j (1, 2 or 3) of a column's digit. */
  function DigitBit(digit: nat, j: nat): nat {
    if j == 1 then digit % 2 else if j == 2 then digit / 2 % 2 else digit / 4 % 2
  }

  /** What a column contributes to sub-scalar j. */
  function Entry(digit: nat, mask: nat, j: nat): int {
    if j == 0 then Sign(mask) else Sign(mask) * DigitBit(digit, j)
  }

  /** The signed binary digits of sub-scalar j. */
  function Row(digits: seq<nat>, masks: seq<nat>, j: nat): (r: seq<int>)
    requires |digits| == |masks|
    ensures |r| == |digits|
  {
    seq(|digits|, i requires 0 <= i < |digits| => Entry(digits[i], masks[i], j))
  }

  /** The four numbers that the columns stand for. */
  function Coefficients(digits: seq<nat>, masks: seq<nat>): (cs: seq<int>)
    requires |digits| == |masks|
    ensures |cs| == 4
  {
    [Value(Row(digits, masks, 0)), Value(Row(digits, masks, 1)),
     Value(Row(digits, masks, 2)), Value(Row(digits, masks, 3))]
  }

  lemma RowSnoc(digits: seq<nat>, masks: seq<nat>, d: nat, m: nat, j: nat, rest: int)
    requires |digits| == |masks|
    ensures Horner(Row(digits + [d], masks + [m], j), rest) == Horner(Row(digits, masks, j), Entry(d, m, j) + 2 * rest)
  {
    hide Horner, Entry;
    assert Row(digits + [d], masks + [m], j) == Row(digits, masks, j) + [Entry(d, m, j)];
    HornerSnoc(Row(digits, masks, j), Entry(d, m, j), rest);
  }

  // ------------------------------------------------------------------ recode

  /** s with its lowest signed digit split off. */
  predicate Splits(s: int, digit: int, next: int) {
    s == digit + 2 * next
  }

  /** One column split off every sub-scalar. */
  predicate SplitsAll(now: seq<Word>, d: nat, m: nat, next: seq<Word>)
    requires |now| == |next| == 4
  {
    && Splits(Odd(now[0]), Entry(d, m, 0), Odd(next[0]))
    && Splits(now[1], Entry(d, m, 1), next[1])
    && Splits(now[2], Entry(d, m, 2), next[2])
    && Splits(now[3], Entry(d, m, 3), next[3])
  }

  /** One step for one of the sub-scalars 1, 2, 3: the lowest bit becomes a digit
      with the column's sign, and a negative digit is paid back by a carry. */
  method HalveSigned(s: Word, bit0: nat) returns (bit: nat, next: Word)
    requires bit0 <= 1
    ensures bit <= 1 && Splits(s, (if bit0 == 0 then -1 else 1) * bit, next)
    ensures forall p: nat :: s <= 2 * p ==> next <= p
  {
    bit := s % 2;
    var carry := if bit0 == 0 && bit == 1 then 1 else 0;
    next := s / 2 + carry;
  }

  /** s0 rounded up to an odd number. */
  function Odd(s: nat): nat {
    2 * (s / 2) + 1
  }

  lemma DigitBits(b1: nat, b2: nat, b3: nat)
    requires b1 <= 1 && b2 <= 1 && b3 <= 1
    ensures var d := b1 + 2 * b2 + 4 * b3;
            DigitBit(d, 1) == b1 && DigitBit(d, 2) == b2 && DigitBit(d, 3) == b3
  {
  }

  /** What is left of the four sub-scalars after the columns written so far. */
  predicate Recoded(was: seq<Word>, digits: seq<nat>, masks: seq<nat>, now: seq<Word>)
    requires |was| == |now| == 4 && |digits| == |masks|
  {
    && Horner(Row(digits, masks, 0), Odd(now[0])) == Odd(was[0])
    && Horner(Row(digits, masks, 1), now[1]) == was[1]
    && Horner(Row(digits, masks, 2), now[2]) == was[2]
    && Horner(Row(digits, masks, 3), now[3]) == was[3]
  }

  predicate Bounded(now: seq<Word>, p: nat)
    requires |now| == 4
  {
    now[0] < p && now[1] <= p && now[2] <= p && now[3] <= p
  }

  lemma RecodedStep(was: seq<Word>, digits: seq<nat>, masks: seq<nat>, d: nat, m: nat, now: seq<Word>, next: seq<Word>)
    requires |was| == |now| == |next| == 4 && |digits| == |masks|
    requires Recoded(was, digits, masks, now)
    requires SplitsAll(now, d, m, next)
    ensures Recoded(was, digits + [d], masks + [m], next)
  {
    hide Horner, Entry, Odd, Row;
    RowSnoc(digits, masks, d, m, 0, Odd(next[0]));
    RowSnoc(digits, masks, d, m, 1, next[1]);
    RowSnoc(digits, masks, d, m, 2, next[2]);
    RowSnoc(digits, masks, d, m, 3, next[3]);
  }

  /** The last column is positive and takes what is left of the sub-scalars. */
  lemma LastColumn(was: seq<Word>, digits: seq<nat>, masks: seq<nat>, now: seq<Word>)
    requires |was| == |now| == 4 && |digits| == |masks|
    requires Recoded(was, digits, masks, now) && Bounded(now, 1)
    ensures var d: nat := now[1] + 2 * now[2] + 4 * now[3];
            Coefficients(digits + [d], masks + [ALL_ONES]) == [Odd(was[0]), was[1], was[2], was[3]]
  {
    var d := now[1] + 2 * now[2] + 4 * now[3];
    DigitBits(now[1], now[2], now[3]);
    assert Odd(now[0]) == Entry(d, ALL_ONES, 0);
    hide Horner, Row, Odd, DigitBit;
    RowSnoc(digits, masks, d, ALL_ONES, 0, 0);
    RowSnoc(digits, masks, d, ALL_ONES, 1, 0);
    RowSnoc(digits, masks, d, ALL_ONES, 2, 0);
    RowSnoc(digits, masks, d, ALL_ONES, 3, 0);
  }

  /** One column: consumes one bit of every sub-scalar. */
  method RecodeColumn(scalars: array<Word>, ghost p: nat) returns (digit: nat, mask: nat)
    requires scalars.Length == 4 && Bounded(scalars[..], 2 * p)
    modifies scalars
    ensures digit < 8 && (mask == 0 || mask == ALL_ONES)
    ensures Bounded(scalars[..], p)
    ensures SplitsAll(old(scalars[..]), digit, mask, scalars[..])
  {
    hide DigitBit;
    scalars[0] := scalars[0] / 2;
    var bit0 := scalars[0] % 2;
    mask := if bit0 == 0 then 0 else ALL_ONES;
    var b1, s1 := HalveSigned(scalars[1], bit0);
    var b2, s2 := HalveSigned(scalars[2], bit0);
    var b3, s3 := HalveSigned(scalars[3], bit0);
    scalars[1], scalars[2], scalars[3] := s1, s2, s3;
    digit := b1 + 2 * b2 + 4 * b3;
    DigitBits(b1, b2, b3);
  }

  /** The 65 columns stand for the four sub-scalars; the first one counts as odd. */
  method Recode(scalars: array<Word>, digits: array<nat>, masks: array<nat>)
    requires scalars.Length == 4 && digits.Length == masks.Length == 65 && digits != masks
    modifies scalars, digits, masks
    ensures forall i | 0 <= i < 65 :: digits[i] < 8 && (masks[i] == 0 || masks[i] == ALL_ONES)
    ensures Coefficients(digits[..], masks[..]) ==
            [Odd(old(scalars[0])), old(scalars[1]), old(scalars[2]), old(scalars[3])]
  {
    hide Pow2, Horner, Entry, Row, Odd, Recoded, Bounded, Coefficients, SplitsAll;
    ghost var was := scalars[..];
    masks[64] := ALL_ONES;
    StartRecoding(was);
    var i := 0;
    while i < 64
      invariant 0 <= i <= 64
      invariant masks[64] == ALL_ONES
      invariant forall k | 0 <= k < i :: digits[k] < 8 && (masks[k] == 0 || masks[k] == ALL_ONES)
      invariant Recoded(was, digits[..i], masks[..i], scalars[..])
      invariant Bounded(scalars[..], Pow2(64 - i))
    {
      ghost var now := scalars[..];
      Pow2Next(64 - i);
      var digit, mask := RecodeColumn(scalars, Pow2(64 - i - 1));
      RecodedStep(was, digits[..i], masks[..i], digit, mask, now, scalars[..]);
      digits[i], masks[i] := digit, mask;
      assert digits[..i + 1] == digits[..i] + [digit];
      assert masks[..i + 1] == masks[..i] + [mask];
      i := i + 1;
    }
    LastBits(scalars[..]);
    digits[64] := scalars[1] + 2 * scalars[2] + 4 * scalars[3];
    LastColumn(was, digits[..64], masks[..64], scalars[..]);
    assert digits[..] == digits[..64] + [digits[64]];
    assert masks[..] == masks[..64] + [masks[64]];
  }

  lemma StartRecoding(was: seq<Word>)
    requires |was| == 4
    ensures Recoded(was, [], [], was) && Bounded(was, Pow2(64))
  {
    Pow64();
  }

  lemma Pow2Next(n: nat)
    requires n >= 1
    ensures Pow2(n) == 2 * Pow2(n - 1)
  {
  }

  lemma LastBits(now: seq<Word>)
    requires |now| == 4 && Bounded(now, Pow2(0))
    ensures Bounded(now, 1) && now[1] + 2 * now[2] + 4 * now[3] < 8
  {
  }
}
