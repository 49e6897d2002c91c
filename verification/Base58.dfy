/** Base58: conversion between byte strings and text by repeated multiply-and-add in a digit
    buffer of fixed size. */
module Base58 {

  import opened Powers

  // ------------------------------------------------------------ numbers and digits

  function Pow(base: nat, k: nat): (p: nat)
    ensures base > 0 ==> p > 0
  {
    if k == 0 then 1 else base * Pow(base, k - 1)
  }

  /** The number that big-endian digits stand for. */
  function Num(base: nat, s: seq<nat>): nat {
    if s == [] then 0 else s[0] * Pow(base, |s| - 1) + Num(base, s[1..])
  }

  ghost predicate DigitsBelow(base: nat, s: seq<nat>) {
    forall i :: 0 <= i < |s| ==> s[i] < base
  }

  lemma {:induction false} NumAppend(base: nat, s: seq<nat>, d: nat)
    ensures Num(base, s + [d]) == Num(base, s) * base + d
  {
    if s == [] {
      assert s + [d] == [d] && [d][1..] == [];
    } else {
      assert (s + [d])[1..] == s[1..] + [d];
      NumAppend(base, s[1..], d);
      Horner(s[0], base, Pow(base, |s| - 1), Num(base, s[1..]), d);
    }
  }

  lemma Horner(x: nat, base: nat, p: nat, n: nat, d: nat)
    ensures x * (base * p) + (n * base + d) == (x * p + n) * base + d
  {
    assert x * (base * p) == x * p * base;
    assert (x * p + n) * base == x * p * base + n * base;
  }

  lemma {:induction false} NumBelow(base: nat, s: seq<nat>)
    requires DigitsBelow(base, s) && base > 0
    ensures Num(base, s) < Pow(base, |s|)
  {
    if s != [] {
      NumBelow(base, s[1..]);
      Compose(Num(base, s[1..]), Pow(base, |s| - 1), s[0], base);
    }
  }

  lemma {:induction false} NumZeros(base: nat, zeros: seq<nat>, s: seq<nat>)
    requires forall i :: 0 <= i < |zeros| ==> zeros[i] == 0
    ensures Num(base, zeros + s) == Num(base, s)
  {
    if zeros == [] {
      assert zeros + s == s;
    } else {
      assert (zeros + s)[1..] == zeros[1..] + s;
      NumZeros(base, zeros[1..], s);
    }
  }

  /** The digits of a number without leading zeros. */
  function Digits(base: nat, n: nat): seq<nat>
    requires base >= 2
  {
    if n == 0 then [] else Digits(base, n / base) + [n % base]
  }

  ghost predicate Minimal(s: seq<nat>) { s == [] || s[0] != 0 }

  lemma {:induction false} DigitsOfNumber(base: nat, n: nat)
    requires base >= 2
    ensures Num(base, Digits(base, n)) == n && DigitsBelow(base, Digits(base, n)) && Minimal(Digits(base, n))
    ensures n > 0 ==> Digits(base, n) != []
  {
    hide Num;
    if n == 0 {
      NumEmpty(base);
    } else {
      LastDigit(base, n);
      DigitsOfNumber(base, n / base);
      NumAppend(base, Digits(base, n / base), n % base);
    }
  }

  lemma NumEmpty(base: nat)
    ensures Num(base, []) == 0
  {
  }

  lemma LastDigit(base: nat, n: nat)
    requires base >= 2 && n > 0
    ensures 0 <= n / base < n && n == n / base * base + n % base && n % base < base && (n / base == 0 ==> n % base != 0)
  {
  }

  lemma MinimalPositive(base: nat, s: seq<nat>)
    requires base > 0 && s != [] && s[0] != 0
    ensures Num(base, s) > 0
  {
    assert s[0] * Pow(base, |s| - 1) >= Pow(base, |s| - 1);
  }

  /** Digits without leading zeros are the digits of their number. */
  lemma {:induction false} DigitsUnique(base: nat, s: seq<nat>)
    requires base >= 2 && DigitsBelow(base, s) && Minimal(s)
    ensures Digits(base, Num(base, s)) == s
  {
    if s != [] {
      var front, last := s[..|s| - 1], s[|s| - 1];
      assert s == front + [last];
      DigitsUnique(base, front);
      NumAppend(base, front, last);
      MinimalPositive(base, s);
      DivUnique(Num(base, s), base, Num(base, front), last);
    }
  }

  // ------------------------------------------------------------ buffer sizes

  lemma {:induction false} PowAdd(base: nat, a: nat, b: nat)
    ensures Pow(base, a + b) == Pow(base, a) * Pow(base, b)
  {
    if a > 0 {
      PowAdd(base, a - 1, b);
      Associate(base, Pow(base, a - 1), Pow(base, b));
    }
  }

  lemma {:induction false} PowGrows(base: nat, a: nat, b: nat)
    requires a <= b && base >= 1
    ensures Pow(base, a) <= Pow(base, b)
  {
    if a < b { PowGrows(base, a, b - 1); }
  }

  lemma ProductLe(a: nat, b: nat, c: nat, d: nat)
    requires a <= c && b <= d
    ensures a * b <= c * d
  {
    assert a * b <= c * b;
    assert c * b <= c * d;
  }

  /** If A^i <= B^j then A^(i k) <= B^(j k). */
  lemma {:induction false} PowLift(A: nat, B: nat, i: nat, j: nat, k: nat)
    requires Pow(A, i) <= Pow(B, j)
    ensures Pow(A, i * k) <= Pow(B, j * k)
  {
    if k > 0 {
      PowLift(A, B, i, j, k - 1);
      assert i * k == i + i * (k - 1) && j * k == j + j * (k - 1);
      PowAdd(A, i, i * (k - 1));
      PowAdd(B, j, j * (k - 1));
      ProductLe(Pow(A, i), Pow(A, i * (k - 1)), Pow(B, j), Pow(B, j * (k - 1)));
    }
  }

  /** Enough bytes for fewer than 15 base58 digits. */
  const BYTES_FOR: seq<nat> := [0, 1, 2, 3, 3, 4, 5, 6, 6, 7, 8, 9, 9, 10, 11]

  function BytesFor(t: nat): nat
    requires t < 15
  {
    BYTES_FOR[t]
  }

  lemma {:induction false} FewDigits(t: nat)
    requires t < 15
    ensures Pow(58, t) <= Pow(256, BytesFor(t))
  {
    hide Pow;
    FourDigits(t);
    if t >= 4 {
      assert BytesFor(t) == 3 + BytesFor(t - 4);
      FewDigits(t - 4);
      PowAdd(58, 4, t - 4);
      PowAdd(256, 3, BytesFor(t - 4));
      ProductLe(Pow(58, 4), Pow(58, t - 4), Pow(256, 3), Pow(256, BytesFor(t - 4)));
    }
  }

  lemma FourDigits(t: nat)
    ensures t < 4 ==> Pow(58, t) <= Pow(256, t)
    ensures Pow(58, 4) <= Pow(256, 3)
  {
    assert Pow(58, 3) <= Pow(256, 3) && Pow(58, 2) <= Pow(256, 2) && Pow(58, 1) <= Pow(256, 1);
  }

  lemma Literals()
    ensures Pow(58, 7) == 2207984167552 && Pow(58, 8) == 128063081718016
    ensures Pow(256, 3) == 16777216 && Pow(256, 4) == 4294967296 && Pow(256, 8) == 18446744073709551616
    ensures Pow(58, 3) == 195112
  {
  }

  lemma Digits15()
    ensures Pow(58, 15) <= Pow(256, 11)
  {
    hide Pow;
    Literals();
    PowAdd(58, 8, 7);
    PowAdd(256, 8, 3);
  }

  lemma Digits71()
    ensures Pow(58, 71) <= Pow(256, 52)
  {
    hide Pow;
    Literals();
    PowAdd(58, 8, 8);
    PowAdd(58, 16, 16);
    PowAdd(58, 32, 32);
    PowAdd(58, 64, 7);
    PowAdd(256, 8, 8);
    PowAdd(256, 16, 16);
    PowAdd(256, 32, 16);
    PowAdd(256, 48, 4);
  }

  /** 733/1000 bytes per base58 digit, and one more, are enough. */
  lemma BytesSuffice(n: nat)
    ensures Pow(58, n) <= Pow(256, n * 733 / 1000 + 1)
  {
    hide Pow, BytesFor;
    var a, r := n / 71, n % 71;
    var b, t := r / 15, r % 15;
    Digits71();
    PowLift(58, 256, 71, 52, a);
    Digits15();
    PowLift(58, 256, 15, 11, b);
    FewDigits(t);
    PowAdd(58, 71 * a, 15 * b);
    PowAdd(58, 71 * a + 15 * b, t);
    PowAdd(256, 52 * a, 11 * b);
    PowAdd(256, 52 * a + 11 * b, BytesFor(t));
    ProductLe(Pow(58, 71 * a), Pow(58, 15 * b), Pow(256, 52 * a), Pow(256, 11 * b));
    ProductLe(Pow(58, 71 * a + 15 * b), Pow(58, t), Pow(256, 52 * a + 11 * b), Pow(256, BytesFor(t)));
    BytesCount(a, b, t);
    PowGrows(256, 52 * a + 11 * b + BytesFor(t), n * 733 / 1000 + 1);
  }

  lemma BytesCount(a: nat, b: nat, t: nat)
    requires b <= 4 && t < 15 && 15 * b + t < 71
    ensures 52 * a + 11 * b + BytesFor(t) <= (71 * a + 15 * b + t) * 733 / 1000 + 1
  {
    var x := (15 * b + t) * 733;
    assert 11 * b + BytesFor(t) <= x / 1000 + 1;
    assert (71 * a + 15 * b + t) * 733 == 52043 * a + x;
  }

  /** Enough base58 digits for fewer than 8 bytes. */
  const DIGITS_FOR: seq<nat> := [0, 2, 3, 5, 6, 7, 9, 10]

  function DigitsFor(r: nat): nat
    requires r < 8
  {
    DIGITS_FOR[r]
  }

  lemma FewBytes(r: nat)
    requires r < 8
    ensures Pow(256, r) <= Pow(58, DigitsFor(r))
  {
    if r == 0 { assert Pow(256, 0) <= Pow(58, 0); }
    if r == 1 { assert Pow(256, 1) <= Pow(58, 2); }
    if r == 2 { assert Pow(256, 2) <= Pow(58, 3); }
    if r == 3 { assert Pow(256, 3) <= Pow(58, 5); }
    if r == 4 { assert Pow(256, 4) <= Pow(58, 6); }
    if r == 5 { assert Pow(256, 5) <= Pow(58, 7); }
    if r == 6 { assert Pow(256, 6) <= Pow(58, 9); }
    if r == 7 { assert Pow(256, 7) <= Pow(58, 10); }
  }

  lemma Bytes8()
    ensures Pow(256, 8) <= Pow(58, 11)
  {
    hide Pow;
    Literals();
    PowAdd(58, 8, 3);
  }

  /** 138/100 base58 digits per byte, and one more, are enough. */
  lemma DigitsSuffice(n: nat)
    ensures Pow(256, n) <= Pow(58, n * 138 / 100 + 1)
  {
    hide Pow, DigitsFor;
    var a, r := n / 8, n % 8;
    Bytes8();
    PowLift(256, 58, 8, 11, a);
    FewBytes(r);
    PowAdd(256, 8 * a, r);
    PowAdd(58, 11 * a, DigitsFor(r));
    ProductLe(Pow(256, 8 * a), Pow(256, r), Pow(58, 11 * a), Pow(58, DigitsFor(r)));
    DigitsCount(a, r);
    PowGrows(58, 11 * a + DigitsFor(r), n * 138 / 100 + 1);
  }

  lemma DigitsCount(a: nat, r: nat)
    requires r < 8
    ensures 11 * a + DigitsFor(r) <= (8 * a + r) * 138 / 100 + 1
  {
    var x := r * 138;
    assert DigitsFor(r) <= x / 100 + 1;
    assert (8 * a + r) * 138 == 1104 * a + x;
  }

  // ------------------------------------------------------------ the digit buffer

  /** The number below the i lowest positions of a buffer. */
  ghost function Low(base: nat, s: seq<nat>, i: nat): nat
    requires i <= |s|
  {
    Num(base, s[|s| - i..])
  }

  lemma LowStep(base: nat, s: seq<nat>, i: nat)
    requires i < |s|
    ensures Low(base, s, i + 1) == s[|s| - 1 - i] * Pow(base, i) + Low(base, s, i)
  {
    var t := s[|s| - 1 - i..];
    assert t[1..] == s[|s| - i..];
  }

  /** The lowest i positions hold mul times the old ones plus add, with a carry; the others are unchanged. */
  ghost predicate ScaledTo(base: nat, mul: nat, add: nat, was: seq<nat>, now: seq<nat>, carry: nat, i: nat) {
    && i <= |was| == |now| && DigitsBelow(base, now) && now[..|was| - i] == was[..|was| - i]
    && Low(base, now, i) + Pow(base, i) * carry == mul * Low(base, was, i) + add
  }

  lemma ScaleStart(base: nat, mul: nat, add: nat, s: seq<nat>)
    requires DigitsBelow(base, s)
    ensures ScaledTo(base, mul, add, s, s, add, 0)
  {
    assert s[|s|..] == [];
  }

  lemma ScaleStep(base: nat, mul: nat, add: nat, was: seq<nat>, now: seq<nat>, carry: nat, i: nat, n: nat)
    requires base > 0 && ScaledTo(base, mul, add, was, now, carry, i) && i < |was|
             && n == carry + mul * now[|was| - 1 - i]
    ensures ScaledTo(base, mul, add, was, now[|was| - 1 - i := Remainder(n, base)], Quotient(n, base), i + 1)
  {
    hide Num, Pow, Quotient, Remainder;
    QuotientRemainder(n, base);
    var k, digit := |was| - 1 - i, Remainder(n, base);
    var next := now[k := digit];
    LowStep(base, was, i);
    LowStep(base, next, i);
    assert next[|was| - i..] == now[|was| - i..];
    assert now[k] == now[..k + 1][k] == was[..k + 1][k] == was[k];
    assert next[..k] == now[..k + 1][..k] == was[..k];
    ScaleArith(Low(base, now, i), Low(base, was, i), Pow(base, i), base, mul, add, carry, was[k], n);
    PowStep(base, i);
  }

  lemma PowStep(base: nat, k: nat)
    ensures Pow(base, k + 1) == base * Pow(base, k)
  {
  }

  lemma ScaleArith(v: nat, w: nat, p: nat, base: nat, mul: nat, add: nat, carry: nat, x: nat, n: nat)
    requires base > 0 && v + p * carry == mul * w + add && n == carry + mul * x
    ensures Remainder(n, base) * p + v + base * p * Quotient(n, base) == mul * (x * p + w) + add
  {
    hide Quotient, Remainder;
    QuotientRemainder(n, base);
    var d, c := Remainder(n, base), Quotient(n, base);
    assert p * (base * c + d) == base * p * c + d * p;
    assert p * (carry + mul * x) == p * carry + p * (mul * x);
    assert mul * (x * p + w) == mul * (x * p) + mul * w;
    assert mul * (x * p) == p * (mul * x);
  }

  /** Where the rest of the buffer is zero, the lowest positions hold everything. */
  lemma LowIsAll(base: nat, s: seq<nat>, i: nat)
    requires i <= |s| && forall k :: 0 <= k < |s| - i ==> s[k] == 0
    ensures Num(base, s) == Low(base, s, i)
  {
    assert s == s[..|s| - i] + s[|s| - i..];
    NumZeros(base, s[..|s| - i], s[|s| - i..]);
  }

  /** At the end nothing is carried out of the buffer if the result fits. */
  lemma ScaleEnd(base: nat, mul: nat, add: nat, was: seq<nat>, now: seq<nat>, carry: nat, i: nat, length: nat)
    requires base > 0 && length <= |was| && (forall k :: 0 <= k < |was| - length ==> was[k] == 0)
    requires ScaledTo(base, mul, add, was, now, carry, i)
    requires (carry == 0 && i >= length) || i == |was|
    requires Num(base, was) * mul + add < Pow(base, |was|)
    ensures carry == 0 && Num(base, now) == Num(base, was) * mul + add
    ensures forall k :: 0 <= k < |now| - i ==> now[k] == 0
  {
    hide Num, Pow;
    assert mul * Num(base, was) == Num(base, was) * mul;
    if i == |was| {
      assert was[0..] == was && now[0..] == now;
      NoCarry(Num(base, now), Pow(base, |was|), carry);
    } else {
      UpperZero(was, now, i, length);
      LowIsAll(base, was, i);
      LowIsAll(base, now, i);
      assert Pow(base, i) * carry == 0;
    }
  }

  lemma UpperZero(was: seq<nat>, now: seq<nat>, i: nat, length: nat)
    requires length <= i <= |was| == |now| && now[..|was| - i] == was[..|was| - i]
             && forall k :: 0 <= k < |was| - length ==> was[k] == 0
    ensures forall k :: 0 <= k < |was| - i ==> now[k] == 0 && was[k] == 0
  {
    forall k | 0 <= k < |was| - i
      ensures now[k] == 0
    {
      assert now[k] == now[..|was| - i][k] == was[..|was| - i][k] == was[k];
    }
  }

  lemma NoCarry(v: nat, p: nat, carry: nat)
    requires p > 0 && v + p * carry < p
    ensures carry == 0
  {
    Apart(carry, p);
    assert carry * p == p * carry;
  }

  lemma ScaledDigits(base: nat, mul: nat, add: nat, was: seq<nat>, now: seq<nat>, carry: nat, i: nat)
    requires ScaledTo(base, mul, add, was, now, carry, i)
    ensures DigitsBelow(base, now)
  {
  }

  /** In place, the buffer's number times mul plus add. `length` positions were in use, and the answer is how many are
      now. */
  method MultiplyAdd(b: array<nat>, base: nat, mul: nat, add: nat, length: nat) returns (length': nat)
    requires base > 0 && length <= b.Length && DigitsBelow(base, b[..])
             && forall k :: 0 <= k < b.Length - length ==> b[k] == 0
    requires Num(base, b[..]) * mul + add < Pow(base, b.Length)
    modifies b
    ensures DigitsBelow(base, b[..]) && Num(base, b[..]) == old(Num(base, b[..])) * mul + add
    ensures length' <= b.Length && forall k :: 0 <= k < b.Length - length' ==> b[k] == 0
  {
    hide Num, Pow, ScaledTo, Quotient, Remainder;
    ghost var was := b[..];
    var carry: nat, i: nat := add, 0;
    ScaleStart(base, mul, add, was);
    while (carry != 0 || i < length) && i < b.Length
      invariant 0 <= i <= b.Length && ScaledTo(base, mul, add, was, b[..], carry, i)
      decreases b.Length - i
    {
      var k := b.Length - 1 - i;
      var n := carry + mul * b[k];
      ghost var now := b[..];
      ScaleStep(base, mul, add, was, now, carry, i, n);
      b[k] := Remainder(n, base);
      assert b[..] == now[k := Remainder(n, base)];
      carry := Quotient(n, base);
      i := i + 1;
    }
    ScaleEnd(base, mul, add, was, b[..], carry, i, length);
    ScaledDigits(base, mul, add, was, b[..], carry, i);
    assert carry == 0;
    length' := i;
  }

  // ------------------------------------------------------------ what is computed

  function LeadingZeros(s: seq<nat>): (z: nat)
    ensures z <= |s| && (forall i :: 0 <= i < z ==> s[i] == 0) && (z < |s| ==> s[z] != 0)
  {
    if s == [] || s[0] != 0 then 0 else 1 + LeadingZeros(s[1..])
  }

  function ZeroDigits(z: nat): (s: seq<nat>)
    ensures |s| == z && forall i :: 0 <= i < z ==> s[i] == 0
  {
    if z == 0 then [] else [0] + ZeroDigits(z - 1)
  }

  /** Digits converted from one base to another, with leading zeros kept one for one. */
  function Converted(from: nat, to: nat, s: seq<nat>): seq<nat>
    requires to >= 2
  {
    ZeroDigits(LeadingZeros(s)) + Digits(to, Num(from, s[LeadingZeros(s)..]))
  }

  lemma {:induction false} LeadingZerosOf(z: nat, s: seq<nat>)
    requires Minimal(s)
    ensures LeadingZeros(ZeroDigits(z) + s) == z
  {
    var t := ZeroDigits(z) + s;
    if z == 0 {
      assert t == s;
    } else {
      assert t[1..] == ZeroDigits(z - 1) + s;
      LeadingZerosOf(z - 1, s);
    }
  }

  /** Converting there and back gives the same digits, for any two bases. */
  lemma ConvertBack(from: nat, to: nat, s: seq<nat>)
    requires from >= 2 && to >= 2 && DigitsBelow(from, s)
    ensures Converted(to, from, Converted(from, to, s)) == s
    ensures DigitsBelow(to, Converted(from, to, s))
  {
    hide Num, Digits;
    var z := LeadingZeros(s);
    var rest := s[z..];
    var there := Digits(to, Num(from, rest));
    DigitsOfNumber(to, Num(from, rest));
    LeadingZerosOf(z, there);
    assert Converted(from, to, s)[z..] == there;
    DigitsUnique(from, rest);
    assert ZeroDigits(z) + rest == s;
  }

  // ------------------------------------------------------------ text

  /** The alphabet: 1 to 9, then A to Z without I and O, then a to z without l. */
  function CharOf(d: nat): char
    requires d < 58
  {
    if d < 9 then '1' + d as char
    else if d < 17 then 'A' + (d - 9) as char
    else if d < 22 then 'J' + (d - 17) as char
    else if d < 33 then 'P' + (d - 22) as char
    else if d < 44 then 'a' + (d - 33) as char
    else 'm' + (d - 44) as char
  }

  /** The place of a character in the alphabet, or -1. */
  function DigitOf(c: char): int {
    if '1' <= c <= '9' then c as int - '1' as int
    else if 'A' <= c <= 'H' then c as int - 'A' as int + 9
    else if 'J' <= c <= 'N' then c as int - 'J' as int + 17
    else if 'P' <= c <= 'Z' then c as int - 'P' as int + 22
    else if 'a' <= c <= 'k' then c as int - 'a' as int + 33
    else if 'm' <= c <= 'z' then c as int - 'm' as int + 44
    else -1
  }

  lemma AlphabetInverse(d: nat, c: char)
    ensures d < 58 ==> DigitOf(CharOf(d)) == d
    ensures DigitOf(c) >= 0 ==> DigitOf(c) < 58 && CharOf(DigitOf(c)) == c
  {
  }

  /** The alphabet is all digits and letters but 0, I, O and l, in the order of their codes. */
  lemma AlphabetOrder(d: nat, e: nat, c: char)
    ensures d < e < 58 ==> CharOf(d) < CharOf(e)
    ensures DigitOf(c) >= 0 <==>
            ('0' <= c <= '9' || 'A' <= c <= 'Z' || 'a' <= c <= 'z') && c != '0' && c != 'I' && c != 'O' && c != 'l'
  {
  }

  predicate IsSpace(c: char) {
    c == ' ' || c == '\t' || c == '\n' || c == '\U{000B}' || c == '\U{000C}' || c == '\r'
  }

  lemma AlphabetNoSpace(c: char)
    ensures DigitOf(c) >= 0 ==> !IsSpace(c)
  {
  }

  predicate IsBase58(s: string) {
    forall i :: 0 <= i < |s| ==> DigitOf(s[i]) >= 0
  }

  function Text(ds: seq<nat>): (s: string)
    requires forall i :: 0 <= i < |ds| ==> ds[i] < 58
    ensures |s| == |ds| && forall i :: 0 <= i < |s| ==> s[i] == CharOf(ds[i])
  {
    if ds == [] then [] else Text(ds[..|ds| - 1]) + [CharOf(ds[|ds| - 1])]
  }

  function Values(s: string): (ds: seq<nat>)
    requires IsBase58(s)
    ensures |ds| == |s| && forall i :: 0 <= i < |s| ==> ds[i] == DigitOf(s[i])
  {
    if s == [] then [] else Values(s[..|s| - 1]) + [DigitOf(s[|s| - 1]) as nat]
  }

  lemma TextValues(ds: seq<nat>, s: string)
    ensures DigitsBelow(58, ds) ==> IsBase58(Text(ds)) && Values(Text(ds)) == ds
    ensures IsBase58(s) ==> DigitsBelow(58, Values(s)) && Text(Values(s)) == s
  {
    if DigitsBelow(58, ds) {
      forall i | 0 <= i < |ds|
        ensures DigitOf(Text(ds)[i]) == ds[i]
      {
        AlphabetInverse(ds[i], ' ');
      }
      assert Values(Text(ds)) == ds;
    }
    if IsBase58(s) {
      forall i | 0 <= i < |s|
        ensures Values(s)[i] < 58 && CharOf(Values(s)[i]) == s[i]
      {
        AlphabetInverse(0, s[i]);
      }
      assert Text(Values(s)) == s;
    }
  }

  /** What EncodeBase58 returns. */
  function Encoded(v: seq<nat>): string
    requires DigitsBelow(256, v)
  {
    ConvertBack(256, 58, v);
    Text(Converted(256, 58, v))
  }

  datatype Option<T> = None | Some(value: T)

  function DropSpaces(s: string): string {
    if s != [] && IsSpace(s[0]) then DropSpaces(s[1..]) else s
  }

  /** Up to the first space. */
  function WordLength(s: string): (n: nat)
    ensures n <= |s| && (forall i :: 0 <= i < n ==> !IsSpace(s[i])) && (n < |s| ==> IsSpace(s[n]))
  {
    if s == [] || IsSpace(s[0]) then 0 else 1 + WordLength(s[1..])
  }

  /** What DecodeBase58 returns: one word of base58 digits, with spaces around it ignored. */
  function Decoded(s: string): Option<seq<nat>> {
    var t := DropSpaces(s);
    var n := WordLength(t);
    if DropSpaces(t[n..]) != [] || !IsBase58(t[..n]) then None else Some(Converted(58, 256, Values(t[..n])))
  }

  lemma WordDecoded(s: string)
    requires IsBase58(s)
    ensures Decoded(s) == Some(Converted(58, 256, Values(s)))
  {
    forall i | 0 <= i < |s|
      ensures !IsSpace(s[i])
    {
      AlphabetNoSpace(s[i]);
    }
    assert DropSpaces(s) == s && WordLength(s) == |s|;
    assert s[..|s|] == s && s[|s|..] == [];
  }

  /** Decoding what was encoded gives back the bytes, for every byte string. */
  lemma DecodeEncoded(v: seq<nat>)
    requires DigitsBelow(256, v)
    ensures Decoded(Encoded(v)) == Some(v)
  {
    ConvertBack(256, 58, v);
    TextValues(Converted(256, 58, v), []);
    WordDecoded(Encoded(v));
  }

  /** The text is the number of the bytes in base 58, with a leading '1' for each leading zero byte and no other. */
  lemma EncodedNumber(v: seq<nat>)
    requires DigitsBelow(256, v)
    ensures IsBase58(Encoded(v)) && Num(58, Values(Encoded(v))) == Num(256, v)
    ensures LeadingZeros(Values(Encoded(v))) == LeadingZeros(v)
  {
    hide Num, Digits;
    var z := LeadingZeros(v);
    ConvertBack(256, 58, v);
    TextValues(Converted(256, 58, v), []);
    var ds := Digits(58, Num(256, v[z..]));
    DigitsOfNumber(58, Num(256, v[z..]));
    NumZeros(58, ZeroDigits(z), ds);
    NumZeros(256, v[..z], v[z..]);
    assert v[..z] + v[z..] == v;
    LeadingZerosOf(z, ds);
  }

  /** Encoding what was decoded gives back the text, for every base58 text without spaces. */
  lemma EncodeDecoded(s: string)
    requires IsBase58(s)
    ensures Decoded(s).Some? && DigitsBelow(256, Decoded(s).value) && Encoded(Decoded(s).value) == s
  {
    WordDecoded(s);
    TextValues([], s);
    ConvertBack(58, 256, Values(s));
  }

  ghost predicate AllSpace(s: string) {
    forall i :: 0 <= i < |s| ==> IsSpace(s[i])
  }

  lemma {:induction false} DropSpacesOf(spaces: string, s: string)
    requires AllSpace(spaces) && (s == [] || !IsSpace(s[0]))
    ensures DropSpaces(spaces + s) == s
  {
    if spaces == [] {
      assert spaces + s == s;
    } else {
      assert (spaces + s)[1..] == spaces[1..] + s;
      DropSpacesOf(spaces[1..], s);
    }
  }

  lemma {:induction false} WordLengthOf(word: string, rest: string)
    requires (forall i :: 0 <= i < |word| ==> !IsSpace(word[i])) && (rest == [] || IsSpace(rest[0]))
    ensures WordLength(word + rest) == |word|
  {
    if word == [] {
      assert word + rest == rest;
    } else {
      assert (word + rest)[1..] == word[1..] + rest;
      WordLengthOf(word[1..], rest);
    }
  }

  /** Spaces before and after a base58 word make no difference. */
  lemma SpacesIgnored(before: string, s: string, after: string)
    requires AllSpace(before) && AllSpace(after) && IsBase58(s)
    ensures Decoded(before + (s + after)) == Decoded(s)
  {
    if s == [] {
      assert before + (s + after) == (before + after) + [];
      DropSpacesOf(before + after, []);
      return;
    }
    forall i | 0 <= i < |s|
      ensures !IsSpace(s[i])
    {
      AlphabetNoSpace(s[i]);
    }
    DropSpacesOf(before, s + after);
    WordLengthOf(s, after);
    assert (s + after)[..|s|] == s && (s + after)[|s|..] == after;
    DropSpacesOf(after, []);
    assert after + [] == after;
    WordDecoded(s);
  }

  // ------------------------------------------------------------ the operations

  /** The digits in use, without leading zeros, are the digits of the buffer's number. */
  lemma BufferDigits(base: nat, b: seq<nat>, it: nat)
    requires base >= 2 && DigitsBelow(base, b) && it <= |b| && (forall k :: 0 <= k < it ==> b[k] == 0)
             && (it < |b| ==> b[it] != 0)
    ensures b[it..] == Digits(base, Num(base, b))
  {
    assert b == b[..it] + b[it..];
    NumZeros(base, b[..it], b[it..]);
    DigitsUnique(base, b[it..]);
  }

  /** One more digit of the input still fits the buffer. */
  lemma StillFits(from: nat, to: nat, input: seq<nat>, p: nat, size: nat)
    requires from >= 2 && to >= 2 && DigitsBelow(from, input) && p < |input| && Pow(from, |input|) <= Pow(to, size)
    ensures Num(from, input[..p + 1]) == Num(from, input[..p]) * from + input[p] < Pow(to, size)
  {
    hide Num, Pow;
    assert input[..p + 1] == input[..p] + [input[p]];
    NumAppend(from, input[..p], input[p]);
    NumBelow(from, input[..p + 1]);
    PowGrows(from, p + 1, |input|);
  }

  /** Skips the leading zeroes of a buffer of which `length` positions are in use. */
  method StripBuffer(b: array<nat>, base: nat, length: nat) returns (output: seq<nat>)
    requires base >= 2 && DigitsBelow(base, b[..]) && length <= b.Length
             && forall k :: 0 <= k < b.Length - length ==> b[k] == 0
    ensures output == Digits(base, Num(base, b[..]))
  {
    var it := b.Length - length;
    while it < b.Length && b[it] == 0
      invariant 0 <= it <= b.Length && forall k :: 0 <= k < it ==> b[k] == 0
    {
      it := it + 1;
    }
    BufferDigits(base, b[..], it);
    output := b[it..];
  }

  lemma ZeroBuffer(base: nat, s: seq<nat>)
    requires forall i :: 0 <= i < |s| ==> s[i] == 0
    ensures Num(base, s) == 0
  {
    NumZeros(base, s, []);
    assert s + [] == s;
  }

  /** The bytes after the leading zeroes, through a buffer of 138/100 digits per byte and one more. */
  method BytesToDigits(input: seq<nat>) returns (digits: seq<nat>)
    requires DigitsBelow(256, input)
    ensures digits == Digits(58, Num(256, input))
  {
    hide Num, Pow, Digits;
    var size := |input| * 138 / 100 + 1;
    DigitsSuffice(|input|);
    var b58 := new nat[size](_ => 0);
    var length: nat, p: nat := 0, 0;
    NumEmpty(256);
    ZeroBuffer(58, b58[..]);
    assert input[..0] == [];
    while p < |input|
      invariant 0 <= p <= |input| && length <= size && DigitsBelow(58, b58[..])
      invariant forall k :: 0 <= k < size - length ==> b58[k] == 0
      invariant Num(58, b58[..]) == Num(256, input[..p])
    {
      StillFits(256, 58, input, p, size);
      length := MultiplyAdd(b58, 58, 256, input[p], length);
      p := p + 1;
    }
    assert input[..p] == input;
    digits := StripBuffer(b58, 58, length);
  }

  /** The text after the leading '1's, up to the first space, through a buffer of 733/1000 bytes per character and one
      more. `end` is where it stopped. */
  method DigitsToBytes(text: string) returns (ok: bool, bytes: seq<nat>, end: nat)
    ensures ok == IsBase58(text[..WordLength(text)])
    ensures ok ==> end == WordLength(text) && bytes == Digits(256, Num(58, Values(text[..end])))
  {
    hide Num, Pow, Digits, Values;
    var size := |text| * 733 / 1000 + 1;
    BytesSuffice(|text|);
    var b256 := new nat[size](_ => 0);
    var length: nat := 0;
    end, bytes := 0, [];
    NumEmpty(58);
    ZeroBuffer(256, b256[..]);
    assert Values(text[..0]) == [];
    while end < |text| && !IsSpace(text[end])
      invariant 0 <= end <= WordLength(text) && IsBase58(text[..end]) && length <= size && DigitsBelow(256, b256[..])
      invariant forall k :: 0 <= k < size - length ==> b256[k] == 0
      invariant Num(256, b256[..]) == Num(58, Values(text[..end]))
    {
      var ch := DigitOf(text[end]);
      if ch < 0 {
        assert text[..WordLength(text)][end] == text[end];
        return false, [], end;
      }
      CharFits(text, end, size);
      length := MultiplyAdd(b256, 256, 58, ch, length);
      end := end + 1;
    }
    bytes := StripBuffer(b256, 256, length);
    return true, bytes, end;
  }

  lemma CharFits(text: string, p: nat, size: nat)
    requires p < |text| && IsBase58(text[..p]) && DigitOf(text[p]) >= 0 && Pow(58, |text|) <= Pow(256, size)
    ensures IsBase58(text[..p + 1])
    ensures Num(58, Values(text[..p + 1])) == Num(58, Values(text[..p])) * 58 + DigitOf(text[p]) < Pow(256, size)
  {
    hide Num, Pow;
    assert text[..p + 1] == text[..p] + [text[p]];
    var ds, d := Values(text[..p + 1]), DigitOf(text[p]);
    assert ds == Values(text[..p]) + [d as nat];
    TextValues([], text[..p + 1]);
    PowGrows(58, p + 1, |text|);
    StillFits(58, 256, ds, p, size);
    assert ds[..p] == Values(text[..p]) && ds[..p + 1] == ds;
  }

  method EncodeBase58(v: seq<nat>) returns (str: string)
    requires DigitsBelow(256, v)
    ensures str == Encoded(v)
  {
    hide Num, Pow, Digits;
    var zeroes := 0;
    while zeroes < |v| && v[zeroes] == 0
      invariant 0 <= zeroes <= |v| && forall i :: 0 <= i < zeroes ==> v[i] == 0
    {
      zeroes := zeroes + 1;
    }
    assert zeroes == LeadingZeros(v);
    var digits := BytesToDigits(v[zeroes..]);
    ConvertBack(256, 58, v);
    assert Converted(256, 58, v) == ZeroDigits(zeroes) + digits;
    str := Translate(zeroes, digits);
  }

  method Translate(zeroes: nat, digits: seq<nat>) returns (str: string)
    requires DigitsBelow(58, ZeroDigits(zeroes) + digits)
    ensures str == Text(ZeroDigits(zeroes) + digits)
  {
    ghost var goal := ZeroDigits(zeroes) + digits;
    str := Repeat('1', zeroes);
    var it := 0;
    while it < |digits|
      invariant 0 <= it <= |digits| && |str| == zeroes + it && forall i :: 0 <= i < |str| ==> str[i] == CharOf(goal[i])
    {
      assert goal[zeroes + it] == digits[it];
      str := str + [CharOf(digits[it])];
      it := it + 1;
    }
    assert str == Text(goal);
  }

  function Repeat(c: char, n: nat): (s: string)
    ensures |s| == n && forall i :: 0 <= i < n ==> s[i] == c
  {
    if n == 0 then [] else Repeat(c, n - 1) + [c]
  }

  method DecodeBase58(psz: string) returns (ok: bool, vch: seq<nat>)
    ensures ok == Decoded(psz).Some? && (ok ==> vch == Decoded(psz).value)
  {
    hide Num, Pow, Digits, Values, DropSpaces, WordLength;
    var start := SkipSpaces(psz, 0);
    assert psz[0..] == psz;
    var word := psz[start..];
    var zeroes := 0;
    while zeroes < |word| && word[zeroes] == '1'
      invariant 0 <= zeroes <= |word| && forall i :: 0 <= i < zeroes ==> word[i] == '1'
    {
      zeroes := zeroes + 1;
    }
    var bytes, end;
    ok, bytes, end := DigitsToBytes(word[zeroes..]);
    OnesSplit(word, zeroes, WordLength(word), WordLength(word[zeroes..]));
    if !ok { return false, []; }
    var rest := SkipSpaces(word, zeroes + end);
    if rest != |word| { return false, []; }
    assert word[rest..] == [];
    return true, ZeroDigits(zeroes) + bytes;
  }

  /** The characters before the first null, which are all that a C string has. */
  function CString(s: string): (r: string)
    ensures r <= s && '\0' !in r && (r != s ==> s[|r|] == '\0')
  {
    if s == [] || s[0] == '\0' then [] else [s[0]] + CString(s[1..])
  }

  /** The overload for strings: what comes after a null character is not looked at. */
  method DecodeBase58String(str: string) returns (ok: bool, vch: seq<nat>)
    ensures ok == Decoded(CString(str)).Some? && (ok ==> vch == Decoded(CString(str)).value)
  {
    ok, vch := DecodeBase58(CString(str));
  }

  /** So any text may follow an encoding and a null character. */
  lemma {:induction false} NullEnds(s: string, t: string)
    requires '\0' !in s
    ensures CString(s + ['\0'] + t) == s
  {
    if s != [] {
      assert (s + ['\0'] + t)[1..] == s[1..] + ['\0'] + t;
      NullEnds(s[1..], t);
    }
  }

  /** Leading '1's are leading zero digits. */
  lemma OnesSplit(word: string, z: nat, n: nat, k: nat)
    requires z <= |word| && (forall i :: 0 <= i < z ==> word[i] == '1') && (z < |word| ==> word[z] != '1')
    requires n == WordLength(word) && k == WordLength(word[z..])
    ensures n == z + k && (IsBase58(word[..n]) <==> IsBase58(word[z..][..k]))
    ensures IsBase58(word[..n]) ==>
              LeadingZeros(Values(word[..n])) == z && Values(word[..n])[z..] == Values(word[z..][..k])
  {
    hide WordLength, IsBase58, LeadingZeros, Values;
    OnesWord(word, z);
    var w := word[..n];
    forall i | 0 <= i < z ensures w[i] == '1' { assert w[i] == word[i]; }
    assert z < |w| ==> w[z] == word[z];
    assert word[z..][..k] == w[z..];
    OnesPart(w, z, w[z..]);
  }

  lemma OnesPart(word: string, z: nat, part: string)
    requires z <= |word| && (forall i :: 0 <= i < z ==> word[i] == '1') && (z < |word| ==> word[z] != '1')
             && part == word[z..]
    ensures IsBase58(word) <==> IsBase58(part)
    ensures IsBase58(word) ==> LeadingZeros(Values(word)) == z && Values(word)[z..] == Values(part)
  {
    hide DigitOf, LeadingZeros, Values;
    OnesDigits(word, z);
    if IsBase58(word) { OnesZero(word, z, part); }
  }

  lemma {:induction false} OnesWord(word: string, z: nat)
    requires z <= |word| && (forall i :: 0 <= i < z ==> word[i] == '1')
    ensures WordLength(word) == z + WordLength(word[z..])
    decreases z
  {
    if z > 0 {
      assert word[1..][z - 1..] == word[z..];
      OnesWord(word[1..], z - 1);
    } else {
      assert word[0..] == word;
    }
  }

  lemma OnesDigits(word: string, z: nat)
    requires z <= |word| && (forall i :: 0 <= i < z ==> word[i] == '1')
    ensures IsBase58(word) <==> IsBase58(word[z..])
  {
    if IsBase58(word[z..]) {
      forall i | 0 <= i < |word|
        ensures DigitOf(word[i]) >= 0
      {
        if i >= z { assert word[i] == word[z..][i - z]; }
      }
    }
  }

  lemma OnesZero(word: string, z: nat, part: string)
    requires IsBase58(word) && z <= |word| && part == word[z..] && (forall i :: 0 <= i < z ==> word[i] == '1')
             && (z < |word| ==> word[z] != '1')
    ensures IsBase58(part) && LeadingZeros(Values(word)) == z && Values(word)[z..] == Values(part)
  {
    var ds := Values(word);
    assert ds[z..] == Values(part);
    forall i | 0 <= i < z
      ensures ds[i] == 0
    {
    }
    if z < |word| { AlphabetInverse(0, word[z]); }
    assert ds == ZeroDigits(z) + ds[z..];
    LeadingZerosOf(z, ds[z..]);
  }

  method SkipSpaces(s: string, from: nat) returns (pos: nat)
    requires from <= |s|
    ensures from <= pos <= |s| && s[pos..] == DropSpaces(s[from..])
  {
    pos := from;
    while pos < |s| && IsSpace(s[pos])
      invariant from <= pos <= |s| && DropSpaces(s[pos..]) == DropSpaces(s[from..])
    {
      assert s[pos..][1..] == s[pos + 1..];
      pos := pos + 1;
    }
  }
}
