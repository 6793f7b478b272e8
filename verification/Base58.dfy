/** Base58 text for byte strings: conversion between bases 256 and 58 in buffers whose
    sizes come from rational approximations of the logarithms, with leading zero bytes
    written as leading '1' characters. */
module Base58 {
  import opened Bytes
  import opened Positional

  const MAX_ARRAY_SIZE: nat := 1024 * 1024 * 10

  datatype Error = InvalidCharacter | InvalidLength
  datatype Result = Decoded(bytes: Bytes) | Failed(error: Error)

  // -------------------------------------------------------------- alphabet

  /** The character of a digit: nine numerals, then upper and lower case, leaving out the four that look alike. */
  function DigitChar(d: nat): char
    requires d < 58
  {
    if d < 9 then ('1' as int + d) as char
    else if d < 17 then ('A' as int + (d - 9)) as char
    else if d < 22 then ('J' as int + (d - 17)) as char
    else if d < 33 then ('P' as int + (d - 22)) as char
    else if d < 44 then ('a' as int + (d - 33)) as char
    else ('m' as int + (d - 44)) as char
  }

  function CharDigit(c: char): int {
    if '1' <= c <= '9' then c as int - '1' as int
    else if 'A' <= c <= 'H' then c as int - 'A' as int + 9
    else if 'J' <= c <= 'N' then c as int - 'J' as int + 17
    else if 'P' <= c <= 'Z' then c as int - 'P' as int + 22
    else if 'a' <= c <= 'k' then c as int - 'a' as int + 33
    else if 'm' <= c <= 'z' then c as int - 'm' as int + 44
    else -1
  }

  lemma AlphabetInverse(d: nat, c: char)
    ensures d < 58 ==> CharDigit(DigitChar(d)) == d
    ensures CharDigit(c) != -1 ==> 0 <= CharDigit(c) < 58 && DigitChar(CharDigit(c)) == c
    ensures CharDigit(c) == 0 <==> c == '1'
  {
  }

  /** The digits in order; the four characters that look alike are missing. */
  lemma Alphabet(d: nat, c: char)
    ensures d < 9 ==> DigitChar(d) == "123456789"[d]
    ensures 9 <= d < 17 ==> DigitChar(d) == "ABCDEFGH"[d - 9]
    ensures 17 <= d < 22 ==> DigitChar(d) == "JKLMN"[d - 17]
    ensures 22 <= d < 33 ==> DigitChar(d) == "PQRSTUVWXYZ"[d - 22]
    ensures 33 <= d < 44 ==> DigitChar(d) == "abcdefghijk"[d - 33]
    ensures 44 <= d < 58 ==> DigitChar(d) == "mnopqrstuvwxyz"[d - 44]
    ensures CharDigit(c) == -1 <==> forall d | 0 <= d < 58 :: DigitChar(d) != c
  {
    AlphabetInverse(d, c);
    forall d | 0 <= d < 58 { AlphabetInverse(d, c); }
  }

  lemma Spaces(c: char)
    ensures IsSpace(c) <==> 9 <= c as int <= 13 || c as int == 32
  {
  }

  predicate IsSpace(c: char) {
    c == ' ' || c == '\U{C}' || c == '\n' || c == '\r' || c == '\t' || c == '\U{B}'
  }

  predicate AllBase58(s: string) {
    forall i | 0 <= i < |s| :: CharDigit(s[i]) != -1
  }

  predicate AllSpaces(s: string) {
    forall i | 0 <= i < |s| :: IsSpace(s[i])
  }

  function DigitsOf(s: string): (ds: seq<nat>)
    requires AllBase58(s)
    ensures |ds| == |s| && Digits(58, ds)
  {
    seq(|s|, i requires 0 <= i < |s| => AlphabetInverse(0, s[i]); CharDigit(s[i]))
  }

  function TextOf(ds: seq<nat>): (s: string)
    requires Digits(58, ds)
    ensures |s| == |ds|
  {
    seq(|ds|, i requires 0 <= i < |ds| => DigitChar(ds[i]))
  }

  // ------------------------------------------------------ what text means

  function Rev(s: seq<nat>): (r: seq<nat>)
    ensures |r| == |s|
  {
    seq(|s|, i requires 0 <= i < |s| => s[|s| - 1 - i])
  }

  /** The value of digits written most significant first. */
  function Number(base: nat, ds: seq<nat>): nat {
    Val(base, Rev(ds))
  }

  /** The number of zeros in front. */
  function LeadingZeros(ds: seq<nat>): (n: nat)
    ensures n <= |ds|
    ensures forall i | 0 <= i < n :: ds[i] == 0
    ensures n < |ds| ==> ds[n] != 0
  {
    if ds == [] || ds[0] != 0 then 0 else 1 + LeadingZeros(ds[1..])
  }

  /** The text s stands for the bytes b: same number, same count of leading zeros. */
  ghost predicate Represents(b: Bytes, s: string) {
    && AllBase58(s)
    && LeadingZeros(DigitsOf(s)) == LeadingZeros(b)
    && Number(58, DigitsOf(s)) == Number(256, b)
  }

  /** Such a pair begins with the same count of characters '1' and zero bytes, and no more on either side. */
  lemma SameZeros(b: Bytes, s: string) returns (z: nat)
    requires Represents(b, s)
    ensures z <= |b| && z <= |s| && (forall i | 0 <= i < z :: b[i] == 0 && s[i] == '1')
    ensures (z < |b| ==> b[z] != 0) && (z < |s| ==> s[z] != '1')
  {
    z := LeadingZeros(b);
    hide CharDigit, LeadingZeros, Number;
    forall i | 0 <= i < |s|
      ensures DigitsOf(s)[i] == 0 <==> s[i] == '1'
    {
      AlphabetInverse(0, s[i]);
    }
  }

  /** The value of a digit string, digit by digit. */
  lemma NumberAppend(base: nat, ds: seq<nat>, d: nat)
    ensures Number(base, []) == 0 && Number(base, ds + [d]) == Number(base, ds) * base + d
  {
    assert Rev(ds + [d]) == [d] + Rev(ds);
    assert ([d] + Rev(ds))[1..] == Rev(ds);
  }

  lemma RevConcat(a: seq<nat>, b: seq<nat>)
    ensures Rev(a + b) == Rev(b) + Rev(a)
  {
  }

  lemma RevInjective(x: seq<nat>, y: seq<nat>)
    requires Rev(x) == Rev(y)
    ensures x == y
  {
    assert |x| == |Rev(x)| == |y|;
    forall i | 0 <= i < |x|
      ensures x[i] == y[i]
    {
      assert x[i] == Rev(x)[|x| - 1 - i] && y[i] == Rev(y)[|y| - 1 - i];
    }
  }

  lemma StripValue(base: nat, ds: seq<nat>, z: nat)
    requires z <= |ds| && forall i | 0 <= i < z :: ds[i] == 0
    ensures Number(base, ds) == Number(base, ds[z..])
  {
    hide Val;
    var zs, rest := ds[..z], ds[z..];
    assert ds == zs + rest;
    RevConcat(zs, rest);
    ValPad(base, Rev(rest), Rev(zs));
  }

  lemma StripShape(base: nat, ds: seq<nat>)
    requires Digits(base, ds) && (ds != [] ==> ds[0] != 0)
    ensures Digits(base, Rev(ds)) && Significant(Rev(ds), |ds|)
  {
  }

  lemma StripZeros(base: nat, ds: seq<nat>)
    requires base >= 2 && Digits(base, ds)
    ensures var rest := ds[LeadingZeros(ds)..];
            Number(base, ds) == Number(base, rest) && Digits(base, Rev(rest)) && Significant(Rev(rest), |rest|)
  {
    hide Number, LeadingZeros, Rev, Significant;
    StripValue(base, ds, LeadingZeros(ds));
    StripShape(base, ds[LeadingZeros(ds)..]);
  }

  /** A number and a count of leading zeros determine the digits. */
  lemma SameDigits(base: nat, xs: seq<nat>, ys: seq<nat>)
    requires base >= 2 && Digits(base, xs) && Digits(base, ys)
    requires LeadingZeros(xs) == LeadingZeros(ys) && Number(base, xs) == Number(base, ys)
    ensures xs == ys
  {
    hide Val, LeadingZeros, Rev, Digits, Significant;
    StripZeros(base, xs);
    StripZeros(base, ys);
    var z := LeadingZeros(xs);
    Unique(base, Rev(xs[z..]), Rev(ys[z..]));
    RevInjective(xs[z..], ys[z..]);
    assert xs == xs[..z] + xs[z..] && ys == ys[..z] + ys[z..];
    assert xs[..z] == ys[..z];
  }

  /** Text stands for at most one byte string, and a byte string is written in only one way. */
  lemma RepresentsUnique(b: Bytes, s: string, b': Bytes, s': string)
    requires Represents(b, s) && Represents(b', s')
    ensures b == b' <==> s == s'
  {
    hide Number, LeadingZeros;
    if s == s' {
      SameDigits(256, b, b');
    }
    if b == b' {
      SameDigits(58, DigitsOf(s), DigitsOf(s'));
      forall i | 0 <= i < |s|
        ensures s[i] == s'[i]
      {
        AlphabetInverse(0, s[i]);
        AlphabetInverse(0, s'[i]);
        assert DigitsOf(s)[i] == DigitsOf(s')[i];
      }
    }
  }

  // ------------------------------------------------------------- carry loop

  /** How far the carry loop has come: i digits are final, the carry goes into the rest. */
  ghost predicate Progress(base: nat, mult: nat, carry0: nat, was: seq<nat>, now: seq<nat>, i: nat, carry: nat)
    requires base >= 1
  {
    && i <= |was| == |now|
    && now[i..] == was[i..]
    && now[..i] + MulAdd(base, mult, was[i..], carry) == MulAdd(base, mult, was, carry0)
    && CarryOut(base, mult, was[i..], carry) == CarryOut(base, mult, was, carry0)
  }

  lemma ProgressStep(base: nat, mult: nat, carry0: nat, was: seq<nat>, now: seq<nat>, i: nat, carry: nat)
    requires base >= 1 && Progress(base, mult, carry0, was, now, i, carry) && i < |was|
    ensures now[i] == was[i]
    ensures var x := carry + mult * now[i];
            Progress(base, mult, carry0, was, now[i := x % base], i + 1, x / base)
  {
    var x := carry + mult * now[i];
    assert was[i..][0] == now[i..][0] == now[i];
    assert was[i..][1..] == was[i + 1..];
    var then' := now[i := x % base];
    assert then'[..i + 1] == now[..i] + [x % base];
    assert then'[i + 1..] == now[i..][1..] == was[i..][1..];
    var rest := MulAdd(base, mult, was[i + 1..], x / base);
    assert MulAdd(base, mult, was[i..], carry) == [x % base] + rest;
    assert now[..i] + ([x % base] + rest) == (now[..i] + [x % base]) + rest;
  }

  lemma ProgressDone(base: nat, mult: nat, carry0: nat, was: seq<nat>, now: seq<nat>, i: nat, carry: nat)
    requires base >= 1 && Progress(base, mult, carry0, was, now, i, carry)
    requires i == |was| || (carry == 0 && forall j | i <= j < |was| :: was[j] == 0)
    ensures now == MulAdd(base, mult, was, carry0) && now[i..] == was[i..]
    ensures i < |was| ==> CarryOut(base, mult, was, carry0) == 0
    ensures i == |was| ==> CarryOut(base, mult, was, carry0) == carry
  {
    if i == |was| {
      assert was[i..] == [] && now == now[..i] + [];
    } else {
      MulAddZeros(base, mult, was[i..]);
      assert now == now[..i] + now[i..];
    }
  }

  function MulAddDigit(mult: nat, d: nat, carry: nat): nat {
    carry + mult * d
  }

  function Low(base: nat, x: nat): nat
    requires base >= 1
  {
    x % base
  }

  function High(base: nat, x: nat): nat
    requires base >= 1
  {
    x / base
  }

  /** Applies "buffer = buffer * mult + carry0" in place, from the last digit towards the first, and stops early
      once the carry is gone and all significant digits are done. The buffer is large enough, so no carry is lost. */
  method Accumulate(buffer: array<nat>, base: nat, mult: nat, carry0: nat, length0: nat) returns (length: nat)
    requires base >= 2 && mult >= 1
    requires Significant(Rev(buffer[..]), length0)
    requires mult * Number(base, buffer[..]) + carry0 < Pow(base, buffer.Length)
    modifies buffer
    ensures Digits(base, Rev(buffer[..])) && Significant(Rev(buffer[..]), length)
    ensures Number(base, buffer[..]) == mult * old(Number(base, buffer[..])) + carry0
  {
    hide Progress, Rev, Digits, Significant, Number, Pow, Low, High, MulAddDigit;
    ghost var was := Rev(buffer[..]);
    NumberIs(base, buffer[..]);
    var carry: nat, i: nat := carry0, 0;
    ProgressStart(base, mult, carry0, was);
    while (carry != 0 || i < length0) && i != buffer.Length
      invariant i <= buffer.Length && Progress(base, mult, carry0, was, Rev(buffer[..]), i, carry)
      invariant i > 0 && i >= length0 && carry == 0 ==> Rev(buffer[..])[i - 1] != 0
      decreases buffer.Length - i
    {
      LoopStep(base, mult, carry0, was, Rev(buffer[..]), i, carry, length0);
      var it := buffer.Length - 1 - i;
      var x := MulAddDigit(mult, buffer[it], carry);
      RevUpdate(buffer[..], i, Low(base, x));
      ghost var next := buffer[..][it := Low(base, x)];
      buffer[it] := Low(base, x);
      assert buffer[..] == next;
      carry := High(base, x);
      i := i + 1;
    }
    LoopEnd(base, mult, carry0, was, Rev(buffer[..]), i, carry, length0, buffer.Length);
    NumberIs(base, buffer[..]);
    length := i;
  }

  lemma NumberIs(base: nat, ds: seq<nat>)
    ensures |Rev(ds)| == |ds| && Number(base, ds) == Val(base, Rev(ds))
  {
  }

  lemma LoopStep(base: nat, mult: nat, carry0: nat, was: seq<nat>, now: seq<nat>, i: nat, carry: nat, length0: nat)
    requires base >= 2 && mult >= 1 && Significant(was, length0)
    requires Progress(base, mult, carry0, was, now, i, carry) && i < |was|
    requires carry != 0 || i < length0
    ensures var x := MulAddDigit(mult, now[i], carry);
            && Progress(base, mult, carry0, was, now[i := Low(base, x)], i + 1, High(base, x))
            && (i + 1 >= length0 && High(base, x) == 0 ==> Low(base, x) != 0)
  {
    hide MulAdd, CarryOut;
    ProgressStep(base, mult, carry0, was, now, i, carry);
    TopDigit(base, mult, now[i], carry);
  }

  lemma LoopEnd(base: nat, mult: nat, carry0: nat, was: seq<nat>, now: seq<nat>, i: nat, carry: nat, length0: nat,
                n: nat)
    requires base >= 2 && |was| == n && Significant(was, length0)
    requires mult * Val(base, was) + carry0 < Pow(base, n)
    requires Progress(base, mult, carry0, was, now, i, carry)
    requires i == n || (carry == 0 && i >= length0)
    requires i > 0 && i >= length0 && carry == 0 ==> now[i - 1] != 0
    ensures Digits(base, now) && Significant(now, i)
    ensures Val(base, now) == mult * Val(base, was) + carry0
  {
    hide MulAdd, CarryOut, Val, Pow, Digits;
    NoCarry(base, mult, was, carry0);
    MulAddValue(base, mult, was, carry0);
    ProgressDone(base, mult, carry0, was, now, i, carry);
    hide Progress;
    forall j | i <= j < n
      ensures now[j] == 0
    {
      assert now[j] == now[i..][j - i] && was[j] == was[i..][j - i];
    }
  }

  /** A digit position that ends without a carry holds a nonzero digit if anything went into it. */
  lemma TopDigit(base: nat, mult: nat, d: nat, carry: nat)
    requires base >= 2 && mult >= 1
    ensures (d != 0 || carry != 0) && (carry + mult * d) / base == 0 ==> (carry + mult * d) % base != 0
  {
    var x := carry + mult * d;
    if d != 0 {
      MulMonotone(1, mult, d);
    }
    assert x == base * (x / base) + x % base;
  }

  lemma RevUpdate(s: seq<nat>, i: nat, v: nat)
    requires i < |s|
    ensures Rev(s)[i] == s[|s| - 1 - i] && Rev(s[|s| - 1 - i := v]) == Rev(s)[i := v]
  {
  }

  lemma ProgressStart(base: nat, mult: nat, carry0: nat, was: seq<nat>)
    requires base >= 1
    ensures Progress(base, mult, carry0, was, was, 0, carry0)
  {
    assert was[0..] == was && was[..0] == [];
  }

  // --------------------------------------------------------------- capacity

  /** log(256) / log(58) < 138 / 100. */
  lemma EncodeCapacity(n: nat)
    ensures Pow(256, n) <= Pow(58, n * 138 / 100 + 1)
  {
    assert Pow(256, 8) <= Pow(58, 11) by { SmallPowers(); }
    hide Pow;
    Capacity(256, 58, 11, 8, n * 138 / 100 + 1, n);
  }

  /** log(58) / log(256) < 733 / 1000. */
  lemma DecodeCapacity(n: nat)
    ensures Pow(58, n) <= Pow(256, n * 733 / 1000 + 1)
  {
    assert Pow(58, 71) <= Pow(256, 52) by { LargePowers(); }
    hide Pow;
    Capacity(58, 256, 52, 71, n * 733 / 1000 + 1, n);
  }

  lemma SmallPowers()
    ensures Pow(256, 8) <= Pow(58, 11)
  {
    PowAdd(58, 5, 6);
    PowAdd(256, 4, 4);
    assert Pow(58, 5) == 656356768 && Pow(58, 6) == 38068692544;
    assert Pow(256, 4) == 4294967296;
  }

  lemma LargePowers()
    ensures Pow(58, 71) <= Pow(256, 52)
  {
    assert Pow(58, 7) == 0x202161caa80 && Pow(58, 8) == 0x7479027ea100;
    assert Pow(256, 4) == 0x100000000;
    hide Pow;
    PowAdd(58, 8, 8);
    assert Pow(58, 16) == 0x34fde3761da26b26e1410000;
    PowAdd(58, 16, 16);
    assert Pow(58, 32) == 0xaf820335d9b3d9cf58b911d87035677fb7f528100000000;
    PowAdd(58, 32, 32);
    assert Pow(58, 64) == 0x7853026ae25f4ce0c69893e6f1f86f67aef4db69563516064adeb967a9d66f4fe64b09ec94e5010000000000000000;
    PowAdd(58, 64, 7);
    PowAdd(256, 4, 4);
    assert Pow(256, 8) == 0x10000000000000000;
    PowAdd(256, 8, 8);
    assert Pow(256, 16) == 0x100000000000000000000000000000000;
    PowAdd(256, 16, 16);
    assert Pow(256, 32) == 0x10000000000000000000000000000000000000000000000000000000000000000;
    PowAdd(256, 16, 4);
    PowAdd(256, 32, 20);
  }

  // ----------------------------------------------------------------- encode

  lemma {:induction false} LeadingZerosIs(ds: seq<nat>, z: nat)
    requires z <= |ds| && (forall i | 0 <= i < z :: ds[i] == 0) && (z < |ds| ==> ds[z] != 0)
    ensures LeadingZeros(ds) == z
  {
    if z > 0 {
      LeadingZerosIs(ds[1..], z - 1);
    }
  }

  lemma NumberBound(base: nat, ds: seq<nat>, n: nat)
    requires base >= 1 && Digits(base, ds) && |ds| <= n
    ensures Number(base, ds) < Pow(base, n)
  {
    hide Val, Pow;
    ValBound(base, Rev(ds));
    PowMonotone(base, |ds|, n);
  }

  /** The significant digits at the end of a buffer. */
  lemma BufferTail(base: nat, buffer: seq<nat>, length: nat)
    requires Significant(Rev(buffer), length) && Digits(base, Rev(buffer))
    ensures Number(base, buffer) == Number(base, buffer[|buffer| - length..])
    ensures Digits(base, buffer[|buffer| - length..])
    ensures length > 0 ==> buffer[|buffer| - length] != 0
  {
    hide Val, Number;
    var z := |buffer| - length;
    assert forall j | 0 <= j < |buffer| :: buffer[j] == Rev(buffer)[|buffer| - 1 - j];
    StripValue(base, buffer, z);
  }

  /** z zeros followed by digits that do not begin with one. */
  lemma ZerosThen(base: nat, z: nat, ds: seq<nat>)
    requires ds != [] ==> ds[0] != 0
    ensures LeadingZeros(seq(z, i => 0) + ds) == z && Number(base, seq(z, i => 0) + ds) == Number(base, ds)
  {
    hide Number;
    var all := seq(z, i => 0) + ds;
    assert all[z..] == ds;
    LeadingZerosIs(all, z);
    StripValue(base, all, z);
  }

  function Ones(z: nat): string {
    seq(z, i => '1')
  }

  lemma TextRepresents(bytes: Bytes, z: nat, ds: seq<nat>)
    requires z == LeadingZeros(bytes) && Digits(58, ds) && (ds != [] ==> ds[0] != 0)
    requires Number(58, ds) == Number(256, bytes[z..])
    ensures Represents(bytes, Ones(z) + TextOf(ds))
  {
    hide Number, LeadingZeros, DigitChar, CharDigit;
    var s := Ones(z) + TextOf(ds);
    forall i | 0 <= i < |s|
      ensures CharDigit(s[i]) == (seq(z, i => 0) + ds)[i]
    {
      AlphabetInverse(if i < z then 0 else ds[i - z], '1');
    }
    assert DigitsOf(s) == seq(z, i => 0) + ds;
    ZerosThen(58, z, ds);
    StripValue(256, bytes, z);
  }

  /** Base-58 digits of bytes without leading zeros, in a buffer of the approximated size. */
  method ConvertTo58(rest: Bytes) returns (b58: array<nat>, length: nat)
    ensures fresh(b58) && b58.Length == |rest| * 138 / 100 + 1
    ensures Digits(58, Rev(b58[..])) && Significant(Rev(b58[..]), length)
    ensures Number(58, b58[..]) == Number(256, rest)
  {
    hide Number, Pow, Significant, Digits, Rev;
    var size := |rest| * 138 / 100 + 1;
    b58 := new nat[size](i => 0);
    length := 0;
    EmptyBuffer(58, b58[..]);
    NumberEmpty(256);
    EncodeCapacity(|rest|);
    var k := 0;
    while k != |rest|
      invariant 0 <= k <= |rest| && fresh(b58) && b58.Length == size
      invariant Digits(58, Rev(b58[..])) && Significant(Rev(b58[..]), length)
      invariant Number(58, b58[..]) == Number(256, rest[..k])
    {
      assert rest[..k + 1] == rest[..k] + [rest[k]];
      NumberAppend(256, rest[..k], rest[k]);
      BytesAreDigits(rest[..k + 1]);
      NumberBound(256, rest[..k + 1], |rest|);
      length := Accumulate(b58, 58, 256, rest[k], length);
      k := k + 1;
    }
    assert rest[..k] == rest;
  }

  method AppendText(str0: string, b58: array<nat>, it0: nat) returns (str: string)
    requires it0 <= b58.Length && Digits(58, b58[it0..])
    ensures str == str0 + TextOf(b58[it0..])
  {
    hide DigitChar;
    str := str0;
    var it := it0;
    ghost var text := TextOf(b58[it0..]);
    while it != b58.Length
      invariant it0 <= it <= b58.Length && str == str0 + text[..it - it0]
      decreases b58.Length - it
    {
      assert b58[it] == b58[it0..][it - it0];
      str := str + [DigitChar(b58[it])];
      it := it + 1;
    }
  }

  /** The text of a byte string. */
  method EncodeBase58(bytes: Bytes) returns (str: string)
    requires |bytes| * 138 / 100 + 1 < 0x8000_0000
    ensures Represents(bytes, str)
  {
    hide Number, Pow, LeadingZeros, Digits, Represents, TextOf, Significant, Rev;
    var pbegin, zeroes := 0, 0;
    while pbegin != |bytes| && bytes[pbegin] == 0
      invariant pbegin == zeroes <= |bytes| && forall i | 0 <= i < zeroes :: bytes[i] == 0
    {
      pbegin := pbegin + 1;
      zeroes := zeroes + 1;
    }
    LeadingZerosIs(bytes, zeroes);
    var b58, length := ConvertTo58(bytes[pbegin..]);
    SignificantFits(Rev(b58[..]), length);
    // This loop never runs: the lemma below shows that the first digit is not zero.
    var it := b58.Length - length;
    while it != b58.Length && b58[it] == 0
      invariant b58.Length - length <= it <= b58.Length
      invariant forall j | b58.Length - length <= j < it :: b58[j] == 0
      decreases b58.Length - it
    {
      it := it + 1;
    }
    BufferTail(58, b58[..], length);
    assert b58[..][it..] == b58[it..];
    TextRepresents(bytes, zeroes, b58[it..]);
    str := AppendText(Ones(zeroes), b58, it);
  }

  lemma EmptyBuffer(base: nat, buffer: seq<nat>)
    requires base >= 1 && forall i | 0 <= i < |buffer| :: buffer[i] == 0
    ensures Number(base, buffer) == 0 && Digits(base, Rev(buffer)) && Significant(Rev(buffer), 0)
  {
    ValZero(base, Rev(buffer));
  }

  lemma NumberEmpty(base: nat)
    ensures Number(base, []) == 0
  {
  }

  lemma BytesAreDigits(bytes: Bytes)
    ensures Digits(256, bytes)
  {
  }

  lemma SignificantFits(ds: seq<nat>, length: nat)
    requires Significant(ds, length)
    ensures length <= |ds|
  {
  }

  // ----------------------------------------------------------------- decode

  /** Where the spaces that begin at i end. */
  function SpaceEnd(s: string, i: nat): (j: nat)
    requires i <= |s|
    ensures i <= j <= |s|
    decreases |s| - i
  {
    if i < |s| && IsSpace(s[i]) then SpaceEnd(s, i + 1) else i
  }

  /** Where the characters other than spaces that begin at i end. */
  function WordEnd(s: string, i: nat): (j: nat)
    requires i <= |s|
    ensures i <= j <= |s|
    decreases |s| - i
  {
    if i < |s| && !IsSpace(s[i]) then WordEnd(s, i + 1) else i
  }

  /** The text between the first spaces and the next space, and what comes after it. */
  function Word(s: string): string {
    s[SpaceEnd(s, 0)..WordEnd(s, SpaceEnd(s, 0))]
  }

  function AfterWord(s: string): string {
    s[WordEnd(s, SpaceEnd(s, 0))..]
  }

  /** Spaces, the word, and what follows it. */
  lemma WordIs(s: string) returns (i: nat, j: nat)
    ensures i <= j <= |s| && Word(s) == s[i..j] && AfterWord(s) == s[j..]
    ensures (forall k | 0 <= k < i :: IsSpace(s[k])) && (forall k | i <= k < j :: !IsSpace(s[k]))
    ensures (i < j || j == |s|) && (j < |s| ==> IsSpace(s[j]))
  {
    i, j := SpaceEnd(s, 0), WordEnd(s, SpaceEnd(s, 0));
    hide IsSpace;
    SpacesUntil(s, 0);
    NoSpacesUntil(s, i);
  }

  lemma {:induction false} SpacesUntil(s: string, i: nat)
    requires i <= |s|
    ensures forall k | i <= k < SpaceEnd(s, i) :: IsSpace(s[k])
    ensures SpaceEnd(s, i) < |s| ==> !IsSpace(s[SpaceEnd(s, i)])
    decreases |s| - i
  {
    if i < |s| {
      SpacesUntil(s, i + 1);
    }
  }

  lemma {:induction false} NoSpacesUntil(s: string, i: nat)
    requires i <= |s|
    ensures forall k | i <= k < WordEnd(s, i) :: !IsSpace(s[k])
    ensures WordEnd(s, i) < |s| ==> IsSpace(s[WordEnd(s, i)])
    ensures i < |s| && !IsSpace(s[i]) ==> i < WordEnd(s, i)
    decreases |s| - i
  {
    if i < |s| {
      NoSpacesUntil(s, i + 1);
    }
  }

  lemma {:induction false} NumberPrefix(base: nat, ds: seq<nat>, k: nat)
    requires base >= 1 && k <= |ds|
    ensures Number(base, ds[..k]) <= Number(base, ds)
    decreases |ds|
  {
    hide Number;
    if k < |ds| {
      var init := ds[..|ds| - 1];
      assert init[..k] == ds[..k] && ds == init + [ds[|ds| - 1]];
      NumberPrefix(base, init, k);
      NumberAppend(base, init, ds[|ds| - 1]);
      MulMonotone(1, base, Number(base, init));
    } else {
      assert ds[..k] == ds;
    }
  }

  lemma SignificantBound(base: nat, ds: seq<nat>, length: nat)
    requires base >= 1 && Significant(ds, length) && length > 0
    ensures Pow(base, length - 1) <= Val(base, ds)
  {
    hide Pow, Val;
    assert ds == ds[..length] + ds[length..];
    ValPad(base, ds[..length], ds[length..]);
    ValLength(base, ds[..length]);
  }

  /** What a prefix of the text already needs, the bytes for the whole text have. */
  lemma PrefixNeeds(b: Bytes, w: string, k: nat, buffer: seq<nat>, length: nat)
    requires Represents(b, w) && k <= |w|
    requires Significant(Rev(buffer), length) && Number(256, buffer) == Number(58, DigitsOf(w[..k]))
    ensures |b| >= LeadingZeros(DigitsOf(w)) + length
  {
    hide Pow, Val, LeadingZeros, Digits, Significant, Rev;
    var z := LeadingZeros(b);
    if length > 0 {
      SignificantBound(256, Rev(buffer), length);
      assert DigitsOf(w)[..k] == DigitsOf(w[..k]);
      NumberPrefix(58, DigitsOf(w), k);
      StripValue(256, b, z);
      BytesAreDigits(b[z..]);
      NumberBound(256, b[z..], |b| - z);
      if |b| - z < length {
        PowMonotone(256, |b| - z, length - 1);
      }
    }
  }

  lemma BytesRepresent(w: string, z: nat, ds: seq<nat>, bytes: Bytes)
    requires AllBase58(w) && z == LeadingZeros(DigitsOf(w)) && (ds != [] ==> ds[0] != 0)
    requires Number(256, ds) == Number(58, DigitsOf(w)) && bytes == seq(z, i => 0) + ds
    ensures Represents(bytes, w)
  {
    hide Number, LeadingZeros;
    ZerosThen(256, z, ds);
  }

  /** The text begins with exactly z characters '1'. */
  predicate BeginsWithOnes(w: string, z: nat) {
    z <= |w| && (forall i | 0 <= i < z :: w[i] == '1') && (z < |w| ==> w[z] != '1')
  }

  lemma LeadingOnes(w: string, z: nat)
    requires AllBase58(w) && BeginsWithOnes(w, z)
    ensures LeadingZeros(DigitsOf(w)) == z
  {
    hide CharDigit, LeadingZeros;
    forall i | 0 <= i < |w|
      ensures DigitsOf(w)[i] == 0 <==> w[i] == '1'
    {
      AlphabetInverse(0, w[i]);
    }
    LeadingZerosIs(DigitsOf(w), z);
  }

  lemma DigitsOfAppend(w: string, c: char)
    requires AllBase58(w) && CharDigit(c) != -1
    ensures AllBase58(w + [c]) && DigitsOf(w + [c]) == DigitsOf(w) + [CharDigit(c)]
    ensures 0 <= CharDigit(c) < 58
  {
    hide CharDigit;
    AlphabetInverse(0, c);
  }

  ghost predicate TooLong(w: string, maxLen: nat) {
    forall b: Bytes | Represents(b, w) :: |b| > maxLen
  }

  /** A character outside the alphabet is reached: what precedes it still fits. */
  ghost predicate BadCharacter(w: string, maxLen: nat) {
    exists k | 0 <= k < |w| :: CharDigit(w[k]) == -1 && !TooLong(w[..k], maxLen)
  }

  lemma NoBadCharacter(w: string, maxLen: nat)
    requires AllBase58(w)
    ensures !BadCharacter(w, maxLen)
  {
    hide CharDigit, TooLong;
  }

  /** Too many ones come before any character outside the alphabet. */
  lemma OnesComeFirst(w: string, z: nat, maxLen: nat)
    requires z <= |w| && (forall i | 0 <= i < z :: w[i] == '1') && z > maxLen
    ensures !BadCharacter(w, maxLen)
  {
    forall k | 0 <= k < |w| && CharDigit(w[k]) == -1
      ensures TooLong(w[..k], maxLen)
    {
      assert k >= z;
      hide CharDigit, TooLong;
      TooManyOnes(w[..k], z, maxLen);
    }
  }

  /** And so do too many digits. */
  lemma DigitsComeFirst(w: string, z: nat, j: nat, buffer: seq<nat>, length: nat, maxLen: nat)
    requires BeginsWithOnes(w, z) && z <= j <= |w| && AllBase58(w[..j])
    requires Significant(Rev(buffer), length) && Number(256, buffer) == Number(58, DigitsOf(w[..j]))
    requires z + length > maxLen
    ensures !BadCharacter(w, maxLen)
  {
    hide Number, Significant, Rev, TooLong, CharDigit;
    forall k | 0 <= k < |w| && CharDigit(w[k]) == -1
      ensures TooLong(w[..k], maxLen)
    {
      assert w[..k][..j] == w[..j];
      TooManyDigits(w[..k], z, j, buffer, length, maxLen);
    }
  }

  /** The buffer holds the bytes for what precedes the character. */
  lemma FitsSoFar(w: string, z: nat, k: nat, buffer: seq<nat>, length: nat, maxLen: nat)
    requires BeginsWithOnes(w, z) && z <= k < |w| && AllBase58(w[..k]) && CharDigit(w[k]) == -1
    requires Digits(256, Rev(buffer)) && Significant(Rev(buffer), length)
    requires Number(256, buffer) == Number(58, DigitsOf(w[..k])) && z + length <= maxLen
    ensures BadCharacter(w, maxLen)
  {
    BufferTail(256, buffer, length);
    SignificantFits(Rev(buffer), length);
    hide Number, Significant, Rev, CharDigit, AllBase58, LeadingZeros;
    var tail := buffer[|buffer| - length..];
    DigitsAreBytes(tail);
    var bytes: Bytes := seq(z, i => 0) + tail;
    LeadingOnes(w[..k], z);
    BytesRepresent(w[..k], z, tail, bytes);
    assert !TooLong(w[..k], maxLen);
  }

  lemma TooManyOnes(w: string, z: nat, maxLen: nat)
    requires z <= |w| && (forall i | 0 <= i < z :: w[i] == '1') && z > maxLen
    ensures TooLong(w, maxLen)
  {
    forall b: Bytes | Represents(b, w)
      ensures |b| > maxLen
    {
      AllOnes(w, z);
    }
  }

  lemma {:induction false} AllOnes(w: string, z: nat)
    requires AllBase58(w) && z <= |w| && (forall i | 0 <= i < z :: w[i] == '1')
    ensures LeadingZeros(DigitsOf(w)) >= z
  {
    var n := LeadingZeros(DigitsOf(w));
    if n < z {
      AlphabetInverse(0, w[n]);
    }
  }

  lemma TooManyDigits(w: string, z: nat, k: nat, buffer: seq<nat>, length: nat, maxLen: nat)
    requires BeginsWithOnes(w, z) && k <= |w| && AllBase58(w[..k])
    requires Significant(Rev(buffer), length) && Number(256, buffer) == Number(58, DigitsOf(w[..k]))
    requires z + length > maxLen
    ensures TooLong(w, maxLen)
  {
    hide Number, Significant, LeadingZeros, Rev;
    forall b: Bytes | Represents(b, w)
      ensures |b| > maxLen
    {
      LeadingOnes(w, z);
      PrefixNeeds(b, w, k, buffer, length);
    }
  }

  method SkipSpaces(s: string, i: nat) returns (j: nat)
    requires i <= |s|
    ensures j == SpaceEnd(s, i)
  {
    j := i;
    while j != |s| && IsSpace(s[j])
      invariant i <= j <= |s| && SpaceEnd(s, j) == SpaceEnd(s, i)
      decreases |s| - j
    {
      j := j + 1;
    }
  }

  /** Reads the digits of a word into a buffer of the approximated size. */
  method DecodeDigits(s: string, ghost w: string, psz0: nat, size: nat, zeroes: nat, maxLen: nat)
    returns (error: Result, b256: array<nat>, length: nat, psz: nat)
    requires psz0 <= |s| && zeroes <= |w| <= size && zeroes <= maxLen
    requires w[zeroes..] == s[psz0..WordEnd(s, psz0)] && BeginsWithOnes(w, zeroes)
    ensures fresh(b256) && psz0 <= psz <= |s|
    ensures error.Failed? ==> TooLong(w, maxLen) && (error.error == InvalidCharacter <==> BadCharacter(w, maxLen))
    ensures error.Decoded? ==> psz == WordEnd(s, psz0) && AllBase58(w) && zeroes + length <= maxLen
    ensures error.Decoded? ==> Digits(256, Rev(b256[..])) && Significant(Rev(b256[..]), length)
    ensures error.Decoded? ==> Number(256, b256[..]) == Number(58, DigitsOf(w))
  {
    hide Number, Pow, LeadingZeros, Digits, Significant, Rev, TooLong, CharDigit, IsSpace, BadCharacter;
    b256 := new nat[size * 733 / 1000 + 1](i => 0);
    length := 0;
    psz := psz0;
    EmptyBuffer(256, b256[..]);
    OnesAreZero(w, zeroes);
    DecodeCapacity(size);
    ghost var k := zeroes;
    while psz != |s| && !IsSpace(s[psz])
      invariant psz0 <= psz <= |s| && WordEnd(s, psz) == WordEnd(s, psz0)
      invariant k == zeroes + (psz - psz0) <= |w| && w[k..] == s[psz..WordEnd(s, psz)]
      invariant fresh(b256) && b256.Length == size * 733 / 1000 + 1
      invariant AllBase58(w[..k]) && zeroes + length <= maxLen
      invariant Digits(256, Rev(b256[..])) && Significant(Rev(b256[..]), length)
      invariant Number(256, b256[..]) == Number(58, DigitsOf(w[..k]))
      decreases |s| - psz
    {
      assert w[k] == w[k..][0] == s[psz];
      var carry := CharDigit(s[psz]);
      if carry == -1 {
        InvalidIsTooLong(w, k, maxLen);
        FitsSoFar(w, zeroes, k, b256[..], length, maxLen);
        return Failed(InvalidCharacter), b256, length, psz;
      }
      assert w[..k + 1] == w[..k] + [w[k]];
      assert w[k + 1..] == w[k..][1..] == s[psz..WordEnd(s, psz)][1..] == s[psz + 1..WordEnd(s, psz)];
      DigitsOfAppend(w[..k], w[k]);
      NumberAppend(58, DigitsOf(w[..k]), carry);
      NumberBound(58, DigitsOf(w[..k + 1]), size);
      length := Accumulate(b256, 256, 58, carry, length);
      k := k + 1;
      psz := psz + 1;
      if length + zeroes > maxLen {
        TooManyDigits(w, zeroes, k, b256[..], length, maxLen);
        DigitsComeFirst(w, zeroes, k, b256[..], length, maxLen);
        return Failed(InvalidLength), b256, length, psz;
      }
    }
    assert w[..k] == w;
    error := Decoded([]);
  }

  lemma InvalidIsTooLong(w: string, k: nat, maxLen: nat)
    requires k < |w| && CharDigit(w[k]) == -1
    ensures !AllBase58(w) && TooLong(w, maxLen)
  {
  }

  lemma OnesAreZero(w: string, z: nat)
    requires z <= |w| && forall i | 0 <= i < z :: w[i] == '1'
    ensures AllBase58(w[..z]) && Number(58, DigitsOf(w[..z])) == 0
  {
    hide CharDigit;
    forall i | 0 <= i < z
      ensures CharDigit(w[..z][i]) == 0
    {
      AlphabetInverse(0, w[i]);
    }
    ValZero(58, Rev(DigitsOf(w[..z])));
  }

  /** Counts the characters '1' that begin at start, giving up when there are more than maxLen. */
  method CountOnes(s: string, start: nat, maxLen: nat) returns (ok: bool, zeroes: nat)
    requires start <= |s|
    ensures ok ==>
      && zeroes <= maxLen && start + zeroes <= WordEnd(s, start) == WordEnd(s, start + zeroes)
      && BeginsWithOnes(s[start..WordEnd(s, start)], zeroes)
      && s[start..WordEnd(s, start)][zeroes..] == s[start + zeroes..WordEnd(s, start)]
    ensures !ok ==>
      TooLong(s[start..WordEnd(s, start)], maxLen) && !BadCharacter(s[start..WordEnd(s, start)], maxLen)
  {
    hide IsSpace, TooLong, BadCharacter;
    ghost var w := s[start..WordEnd(s, start)];
    var psz := start;
    zeroes := 0;
    OneIsNoSpace();
    while psz != |s| && s[psz] == '1'
      invariant start <= psz <= |s| && psz == start + zeroes
      invariant WordEnd(s, psz) == WordEnd(s, start) && zeroes <= maxLen
      invariant forall i | start <= i < psz :: s[i] == '1'
      decreases |s| - psz
    {
      zeroes := zeroes + 1;
      if zeroes > maxLen {
        assert forall i | 0 <= i < zeroes :: w[i] == s[start + i];
        TooManyOnes(w, zeroes, maxLen);
        OnesComeFirst(w, zeroes, maxLen);
        return false, zeroes;
      }
      psz := psz + 1;
    }
    assert forall i | 0 <= i < |w| :: w[i] == s[start + i];
    ok := true;
  }

  /** The bytes a text stands for. Surrounding spaces are ignored; anything after a space in the middle, a character
      outside the alphabet, or more than maxLen bytes is an error, and nothing else is. */
  method DecodeBase58(s: string, maxLen: nat) returns (r: Result)
    ensures r.Decoded? <==> AllSpaces(AfterWord(s)) && exists b: Bytes :: Represents(b, Word(s)) && |b| <= maxLen
    ensures r.Decoded? ==> Represents(r.bytes, Word(s)) && |r.bytes| <= maxLen
    ensures r == Failed(InvalidCharacter) <==> BadCharacter(Word(s), maxLen)
  {
    hide Number, Pow, LeadingZeros, Digits, Significant, Rev, CharDigit, IsSpace, AllBase58, Represents, BadCharacter;
    ghost var w := Word(s);
    var psz := SkipSpaces(s, 0);
    var ones, zeroes := CountOnes(s, psz, maxLen);
    if !ones {
      return Failed(InvalidLength);
    }
    psz := psz + zeroes;
    var outcome, b256, length, end := DecodeDigits(s, w, psz, |s|, zeroes, maxLen);
    if outcome.Failed? {
      return outcome;
    }
    NoBadCharacter(w, maxLen);
    psz := end;
    ghost var stop := psz;
    psz := SkipSpaces(s, psz);
    AllSpacesToEnd(s, stop);
    if psz != |s| {
      return Failed(InvalidLength);
    }
    var tail := BufferBytes(b256, length);
    r := Decoded(seq(zeroes, i => 0) + tail);
    LeadingOnes(w, zeroes);
    BytesRepresent(w, zeroes, tail, r.bytes);
  }

  /** The significant bytes at the end of a buffer. */
  method BufferBytes(b256: array<nat>, length: nat) returns (tail: Bytes)
    requires Digits(256, Rev(b256[..])) && Significant(Rev(b256[..]), length)
    ensures |tail| == length && Number(256, tail) == Number(256, b256[..]) && (tail != [] ==> tail[0] != 0)
  {
    hide Number, Digits, Significant, Rev;
    BufferTail(256, b256[..], length);
    SignificantFits(Rev(b256[..]), length);
    var it := b256.Length - length;
    assert b256[..][it..] == b256[it..];
    DigitsAreBytes(b256[it..]);
    tail := b256[it..];
  }

  lemma OneIsNoSpace()
    ensures !IsSpace('1')
  {
  }

  lemma {:induction false} AllSpacesToEnd(s: string, i: nat)
    requires i <= |s|
    ensures SpaceEnd(s, i) == |s| <==> AllSpaces(s[i..])
    decreases |s| - i
  {
    if i < |s| && IsSpace(s[i]) {
      AllSpacesToEnd(s, i + 1);
      assert s[i..] == [s[i]] + s[i + 1..];
    } else if i < |s| {
      assert s[i..][0] == s[i];
    }
  }

  lemma DigitsAreBytes(ds: seq<nat>)
    requires Digits(256, ds)
    ensures forall i | 0 <= i < |ds| :: 0 <= ds[i] < 256
  {
  }

  // ------------------------------------------------------------ round trips

  lemma {:induction false} SpacelessWord(s: string, i: nat)
    requires i <= |s| && forall j | 0 <= j < |s| :: !IsSpace(s[j])
    ensures WordEnd(s, i) == |s|
    decreases |s| - i
  {
    if i < |s| {
      SpacelessWord(s, i + 1);
    }
  }

  lemma SpacelessParts(s: string)
    requires forall j | 0 <= j < |s| :: !IsSpace(s[j])
    ensures Word(s) == s && AfterWord(s) == []
  {
    SpacelessWord(s, 0);
  }

  lemma Base58HasNoSpaces(s: string)
    requires AllBase58(s)
    ensures forall j | 0 <= j < |s| :: !IsSpace(s[j])
  {
    forall j | 0 <= j < |s|
      ensures !IsSpace(s[j])
    {
      assert CharDigit(s[j]) != -1;
    }
  }

  /** Decoding what was encoded gives the same bytes back, leading zeros included. */
  method BytesRoundTrip(bytes: Bytes) returns (r: Result)
    requires |bytes| <= MAX_ARRAY_SIZE
    ensures r == Decoded(bytes)
  {
    var s := EncodeBase58(bytes);
    Base58HasNoSpaces(s);
    SpacelessParts(s);
    hide Represents, AllBase58, Word, AfterWord;
    r := DecodeBase58(s, MAX_ARRAY_SIZE);
    assert Represents(bytes, Word(s)) && AllSpaces(AfterWord(s));
    RepresentsUnique(bytes, s, r.bytes, s);
  }

  /** Encoding what was decoded gives the same text back, if it had no spaces around it. */
  method TextRoundTrip(s: string) returns (r: Result, t: string)
    requires forall j | 0 <= j < |s| :: !IsSpace(s[j])
    ensures r.Decoded? ==> t == s
    ensures r.Failed? ==> TooLong(s, MAX_ARRAY_SIZE)
  {
    SpacelessParts(s);
    hide Represents, AllBase58, Word, AfterWord;
    t := "";
    r := DecodeBase58(s, MAX_ARRAY_SIZE);
    if r.Decoded? {
      t := EncodeBase58(r.bytes);
      RepresentsUnique(r.bytes, s, r.bytes, t);
    }
  }
}
