/** Compressed amounts: over the integers a bijection, in 64 bits only where the code does not wrap around. */
module Amounts {

  import opened Powers

  function Pow10(e: nat): (p: nat)
    ensures p > 0
  {
    if e == 0 then 1 else 10 * Pow10(e - 1)
  }

  /** How many trailing zeros of n, up to `max`, are taken off. */
  function Tens(n: nat, max: nat): (e: nat)
    ensures e <= max
    decreases max
  {
    if max > 0 && n % 10 == 0 then 1 + Tens(n / 10, max - 1) else 0
  }

  function Stripped(n: nat, e: nat): nat {
    if e == 0 then n else Stripped(n / 10, e - 1)
  }

  function Compressed(n: nat): nat {
    if n == 0 then 0 else
      TensStripped(n, 9);
      var e := Tens(n, 9);
      var m := Stripped(n, e);
      if e < 9 then 1 + (m / 10 * 9 + m % 10 - 1) * 10 + e else 1 + (m - 1) * 10 + 9
  }

  function Mantissa(x: nat): nat {
    var y, e := x / 10, x % 10;
    if e < 9 then y / 9 * 10 + y % 9 + 1 else y + 1
  }

  function Decompressed(x: nat): nat {
    if x == 0 then 0 else Mantissa(x - 1) * Pow10((x - 1) % 10)
  }

  lemma {:induction false} TensStripped(n: nat, max: nat)
    requires n > 0
    ensures var e := Tens(n, max);
            && n == Stripped(n, e) * Pow10(e) && Stripped(n, e) > 0
            && (e < max ==> Stripped(n, e) % 10 != 0)
    decreases max
  {
    if max > 0 && n % 10 == 0 {
      TensStripped(n / 10, max - 1);
      var e := Tens(n / 10, max - 1);
      var m := Stripped(n / 10, e);
      assert m * (10 * Pow10(e)) == 10 * (m * Pow10(e));
    }
  }

  lemma {:induction false} TensOf(m: nat, e: nat, max: nat)
    requires m > 0 && e <= max && (e < max ==> m % 10 != 0)
    ensures m * Pow10(e) > 0 && Tens(m * Pow10(e), max) == e && Stripped(m * Pow10(e), e) == m
    decreases e
  {
    hide Tens, Stripped;
    if e == 0 {
      NoTens(m, max);
    } else {
      TensOf(m, e - 1, max - 1);
      var n := m * Pow10(e - 1);
      assert m * Pow10(e) == 10 * n by { assert m * (10 * Pow10(e - 1)) == 10 * (m * Pow10(e - 1)); }
      OneMoreTen(n, e, max);
    }
  }

  lemma NoTens(m: nat, max: nat)
    requires 0 < max ==> m % 10 != 0
    ensures Tens(m, max) == 0 && Stripped(m, 0) == m && m * Pow10(0) == m
  {
  }

  lemma OneMoreTen(n: nat, e: nat, max: nat)
    requires e > 0 && max > 0
    ensures Tens(10 * n, max) == 1 + Tens(n, max - 1) && Stripped(10 * n, e) == Stripped(n, e - 1)
  {
    assert 10 * n / 10 == n && 10 * n % 10 == 0;
  }

  /** Decompressing undoes compressing, for every amount. */
  lemma DecompressCompressed(n: nat)
    ensures Decompressed(Compressed(n)) == n
  {
    if n > 0 {
      TensStripped(n, 9);
      var e := Tens(n, 9);
      MantissaOf(Stripped(n, e), e);
    }
  }

  lemma MantissaOf(m: nat, e: nat)
    requires m > 0 && e <= 9 && (e < 9 ==> m % 10 != 0)
    ensures var x := if e < 9 then (m / 10 * 9 + m % 10 - 1) * 10 + e else (m - 1) * 10 + 9;
            x % 10 == e && Mantissa(x) == m
  {
  }

  /** Compressing undoes decompressing, for every code. */
  lemma CompressDecompressed(x: nat)
    ensures Compressed(Decompressed(x)) == x
  {
    if x > 0 {
      var e, m := (x - 1) % 10, Mantissa(x - 1);
      MantissaBack(x - 1);
      TensOf(m, e, 9);
    }
  }

  lemma MantissaBack(x: nat)
    ensures var e, m := x % 10, Mantissa(x);
            m > 0 && (e < 9 ==> m % 10 != 0)
                && x == if e < 9 then (m / 10 * 9 + m % 10 - 1) * 10 + e else (m - 1) * 10 + 9
  {
  }

  /** COIN * 54000000 */
  const MAX_MONEY: nat := 54000000 * 100000000

  /** The range of uint64_t. */
  const WORD: nat := 0x1_0000_0000_0000_0000

  function Wrap(n: int): nat { n % WORD }

  lemma SmallWrap(n: nat)
    requires n < WORD
    ensures Wrap(n) == n
  {
  }

  /** The code of an amount is below ten times the amount and ten more. */
  lemma CodeBelow(n: nat)
    ensures Compressed(n) <= 10 * n + 10
  {
    if n > 0 {
      TensStripped(n, 9);
      StrippedBelow(n, Tens(n, 9));
    }
  }

  lemma {:induction false} StrippedBelow(n: nat, e: nat)
    ensures Stripped(n, e) <= n
  {
    if e > 0 { StrippedBelow(n / 10, e - 1); }
  }

  /** In 64 bits; the code of an amount in the money range fits them. */
  method CompressAmount(n: nat) returns (x: nat)
    requires n < WORD
    ensures x == Wrap(Compressed(n))
    ensures n <= MAX_MONEY ==> x == Compressed(n)
  {
    hide Wrap, Tens, Stripped, Pow10;
    CodeBelow(n);
    if n <= MAX_MONEY { SmallWrap(Compressed(n)); }
    if n == 0 {
      SmallWrap(0);
      return 0;
    }
    var m, e := StripTens(n);
    TensStripped(n, 9);
    if e < 9 {
      var d := m % 10;
      assert 1 <= d <= 9;
      m := m / 10;
      return Wrap(1 + (m * 9 + d - 1) * 10 + e);
    } else {
      return Wrap(1 + (m - 1) * 10 + 9);
    }
  }

  method StripTens(n: nat) returns (m: nat, e: nat)
    requires n > 0
    ensures e == Tens(n, 9) && m == Stripped(n, e)
  {
    m, e := n, 0;
    while m % 10 == 0 && e < 9
      invariant 0 <= e <= 9 && m <= n
      invariant Tens(n, 9) == e + Tens(m, 9 - e) && Stripped(n, Tens(n, 9)) == Stripped(m, Tens(m, 9 - e))
      decreases 9 - e
    {
      m := m / 10;
      e := e + 1;
    }
  }

  /** In 64 bits. */
  method DecompressAmount(x: nat) returns (n: nat)
    requires x < WORD
    ensures n == Wrap(Decompressed(x))
  {
    hide Wrap, Pow10;
    if x == 0 {
      SmallWrap(0);
      return 0;
    }
    var y := x - 1;
    var e := y % 10;
    y := y / 10;
    if e < 9 {
      var d := y % 9 + 1;
      y := y / 9;
      n := y * 10 + d;
    } else {
      n := y + 1;
    }
    assert n == Mantissa(x - 1);
    n := TimesTens(n, e);
  }

  function Times(a: nat, b: nat): nat { a * b }

  lemma TimesTen(n: nat, e: nat)
    requires e > 0
    ensures Times(n, Pow10(e)) == Times(n * 10, Pow10(e - 1))
  {
    assert n * (10 * Pow10(e - 1)) == n * 10 * Pow10(e - 1);
  }

  method TimesTens(m: nat, all: nat) returns (n: nat)
    requires m < WORD
    ensures n == Wrap(m * Pow10(all))
  {
    hide Wrap, Times, Pow10;
    n := m;
    var e := all;
    while e > 0
      invariant 0 <= e <= all && n < WORD && Wrap(Times(n, Pow10(e))) == Wrap(Times(m, Pow10(all)))
    {
      TimesTen(n, e);
      WrapEarly(n * 10, Pow10(e - 1));
      WrapBelow(n * 10);
      n := Wrap(n * 10);
      e := e - 1;
    }
    NoTen(n);
    SmallWrap(n);
    TimesIs(m, Pow10(all));
  }

  lemma NoTen(n: nat)
    ensures Times(n, Pow10(0)) == n
  {
  }

  lemma TimesIs(a: nat, b: nat)
    ensures Times(a, b) == a * b
  {
  }

  lemma WrapBelow(n: nat)
    ensures Wrap(n) < WORD
  {
  }

  /** Wrapping around before a multiplication does not matter. */
  lemma WrapEarly(a: nat, p: nat)
    ensures Wrap(Times(Wrap(a), p)) == Wrap(Times(a, p))
  {
    var q, r := a / WORD, a % WORD;
    Spread(q, WORD, r, p);
    Multiples(r * p, q * p);
  }

  lemma Spread(q: nat, w: nat, r: nat, p: nat)
    ensures (q * w + r) * p == r * p + q * p * w
  {
    assert (q * w + r) * p == q * w * p + r * p;
    assert q * w * p == q * p * w;
  }

  lemma Multiples(x: nat, k: nat)
    ensures (x + k * WORD) % WORD == x % WORD
  {
    DivUnique(x + k * WORD, WORD, x / WORD + k, x % WORD);
  }

  /** The smallest amount whose code needs more than 64 bits. */
  const OVERFLOW: nat := 2049638230412172403

  lemma PlainCode(n: nat)
    requires n % 10 != 0
    ensures Compressed(n) == 90 * (n / 10) + 10 * (n % 10) - 9
  {
  }

  /** Only an amount without a trailing zero can have a code that does not fit. */
  lemma CodeFits(n: nat)
    requires n < WORD
    ensures Compressed(n) < WORD <==> n % 10 == 0 || n < OVERFLOW
  {
    if n % 10 != 0 {
      PlainCode(n);
    } else if n > 0 {
      TensStripped(n, 9);
      StrippedBelow(n / 10, Tens(n, 9) - 1);
    }
  }

  /** Where a code that wrapped around k times decompresses to: `Shifted(k)` or one more below the amount, times ten to
      the power of `Scale(k)`. */
  function Tenth(k: nat): nat { (k * WORD + 9) / 10 }

  function Scale(k: nat): nat { 10 * Tenth(k) - k * WORD }

  function Shifted(k: nat): nat { Tenth(k) / 9 * 10 + Tenth(k) % 9 }

  lemma WrappedMantissa(n: nat, k: nat, x: nat)
    requires n % 10 != 0 && x > 0 && x + k * WORD == 90 * (n / 10) + 10 * (n % 10) - 9 && Scale(k) < 9
    ensures (x - 1) % 10 == Scale(k)
    ensures Mantissa(x - 1) == n - Shifted(k) || Mantissa(x - 1) == n - Shifted(k) - 1
  {
    hide Tenth;
    var a, d, c := n / 10, n % 10, Tenth(k);
    Digits(x - 1, 9 * a + d - 1 - c, Scale(k));
    NinesApart(a, d, c);
  }

  lemma Digits(x: nat, y: int, e: nat)
    requires x == 10 * y + e && e < 9
    ensures y >= 0 && x % 10 == e && x / 10 == y && Mantissa(x) == y / 9 * 10 + y % 9 + 1
  {
  }

  lemma NinesApart(a: nat, d: nat, c: nat)
    requires 1 <= d <= 9 && 9 * a + d - 1 >= c
    ensures var m, k := (9 * a + d - 1 - c) / 9 * 10 + (9 * a + d - 1 - c) % 9 + 1, c / 9 * 10 + c % 9;
            m == 10 * a + d - k || m == 10 * a + d - k - 1
  {
  }

  /** The inverse of 10^e - 1 modulo 2^64. */
  function Inverse(e: nat): nat {
    if e == 2 then 12670490878911611211
    else if e == 4 then 13458245626333751279
    else if e == 6 then 1672254362768354751
    else 300153063250403071
  }

  /** At most one number is its own distance from k, scaled by p and wrapped around. */
  lemma OnlyOne(n: nat, m: nat, k: nat, p: nat, inv: nat)
    requires n < WORD && m == n - k && p > 0 && Wrap((p - 1) * inv) == 1 && Wrap(m * p) == n
    ensures n == Wrap(k * p * inv)
  {
    var j, q := m * p / WORD, (p - 1) * inv / WORD;
    assert n * (p - 1) == k * p + j * WORD by { assert m * p == n * p - k * p; }
    Solved(n, p - 1, k * p, j, inv, q, WORD);
    var t := n * q - j * inv;
    assert k * p * inv == t * WORD + n;
    DivUnique(k * p * inv, WORD, t, n);
  }

  lemma Solved(n: nat, a: nat, b: nat, j: int, inv: nat, q: nat, w: nat)
    requires n * a == b + j * w && a * inv == 1 + q * w
    ensures b * inv == (n * q - j * inv) * w + n
  {
    assert n * a * inv == n * (a * inv);
    assert n * (1 + q * w) == n + n * q * w;
    assert (b + j * w) * inv == b * inv + j * inv * w;
  }

  /** The one number that a code wrapped around k times could bring back. */
  function Candidate(k: nat, late: nat): nat {
    Wrap((Shifted(k) + late) * Pow10(Scale(k)) * Inverse(Scale(k)))
  }

  /** Its code wraps around another number of times. */
  ghost predicate NotItself(k: nat, n: nat) { n % 10 == 0 || (90 * (n / 10) + 10 * (n % 10) - 9) / WORD != k }

  ghost predicate Invertible(e: nat) { Wrap((Pow10(e) - 1) * Inverse(e)) == 1 }

  lemma CandidateFails(k: nat, late: nat)
    requires 1 <= k <= 8 && k != 5 && late <= 1
    ensures Scale(k) < 9 && Invertible(Scale(k)) && NotItself(k, Candidate(k, late))
  {
    Tenfold();
    hide Scale, Shifted, Candidate, Invertible, Worked, NotItself, Pow10;
    if k == 1 { Once(); Found(1, 4, 10000, 2049638230412172402, 15288550632769423584, 10300052185393623248); }
    if k == 2 { Twice(); Found(2, 8, 100000000, 4099276460824344804, 14480868974329830400, 14781022037580233472); }
    if k == 3 { ThreeTimes(); Found(3, 2, 100, 6148914691236517205, 1925417731599313468, 14595908610510924680); }
    if k == 4 { FourTimes(); Found(4, 6, 1000000, 8198552921648689607, 14161661572577611840, 15833915935345966592); }
    if k == 6 { SixTimes(); Found(6, 4, 10000, 12297829382473034411, 4486081875444583760, 17944327501778335040); }
    if k == 7 { SevenTimes(); Found(7, 8, 100000000, 14347467612885206813, 4266028162630124288, 4566181225880527360); }
    if k == 8 { EightTimes(); Found(8, 2, 100, 16397105843297379214, 7432526512302726184, 1656273317504785780); }
  }

  /** The two candidates for k, in numbers. */
  ghost predicate Worked(k: nat, e: nat, p: nat, shift: nat, n: nat, n': nat) {
    && Scale(k) == e && Shifted(k) == shift && e in {2, 4, 6, 8} && NotItself(k, n) && NotItself(k, n')
    && shift * p * Inverse(e) % WORD == n && (shift + 1) * p * Inverse(e) % WORD == n'
  }

  lemma Once()
    ensures Worked(1, 4, 10000, 2049638230412172402, 15288550632769423584, 10300052185393623248)
  {
  }

  lemma Twice()
    ensures Worked(2, 8, 100000000, 4099276460824344804, 14480868974329830400, 14781022037580233472)
  {
  }

  lemma ThreeTimes()
    ensures Worked(3, 2, 100, 6148914691236517205, 1925417731599313468, 14595908610510924680)
  {
  }

  lemma FourTimes()
    ensures Worked(4, 6, 1000000, 8198552921648689607, 14161661572577611840, 15833915935345966592)
  {
  }

  lemma SixTimes()
    ensures Worked(6, 4, 10000, 12297829382473034411, 4486081875444583760, 17944327501778335040)
  {
  }

  lemma SevenTimes()
    ensures Worked(7, 8, 100000000, 14347467612885206813, 4266028162630124288, 4566181225880527360)
  {
  }

  lemma EightTimes()
    ensures Worked(8, 2, 100, 16397105843297379214, 7432526512302726184, 1656273317504785780)
  {
  }

  lemma Found(k: nat, e: nat, p: nat, shift: nat, n: nat, n': nat)
    requires Worked(k, e, p, shift, n, n') && Pow10(e) == p
    ensures Scale(k) == e < 9 && Invertible(e)
    ensures NotItself(k, Candidate(k, 0)) && NotItself(k, Candidate(k, 1))
  {
    hide Shifted, Scale, NotItself;
  }

  lemma Tenfold()
    ensures Pow10(2) == 100 && Pow10(4) == 10000 && Pow10(6) == 1000000 && Pow10(8) == 100000000
  {
    assert Pow10(4) == 10000;
  }

  /** A code that wrapped around never brings its amount back. */
  lemma WrappedLost(n: nat)
    requires n < WORD && n % 10 != 0 && Compressed(n) >= WORD
    ensures Wrap(Decompressed(Wrap(Compressed(n)))) != n
  {
    hide Wrap, Candidate, Mantissa, Pow10, Compressed, Scale, Shifted, Inverse, Worked;
    PlainCode(n);
    var c := Compressed(n);
    var k, x := c / WORD, c % WORD;
    WrapIs(c);
    assert 1 <= k <= 8 && x > 0;
    if k == 5 {
      HalfScale();
      WrappedMantissa(n, k, x);
      SmallWrap(Mantissa(x - 1));
    } else {
      CandidateFails(k, 0);
      CandidateFails(k, 1);
      WrappedMantissa(n, k, x);
      var m, e := Mantissa(x - 1), Scale(k);
      var late := n - m - Shifted(k);
      if Wrap(m * Pow10(e)) == n {
        OnlyOne(n, m, Shifted(k) + late, Pow10(e), Inverse(e));
        CandidateIs(k, late);
      }
    }
  }

  lemma WrapIs(n: int)
    ensures Wrap(n) == n % WORD
  {
  }

  lemma CandidateIs(k: nat, late: nat)
    ensures Candidate(k, late) == Wrap((Shifted(k) + late) * Pow10(Scale(k)) * Inverse(Scale(k)))
  {
  }

  lemma HalfScale()
    ensures Scale(5) == 0 && Pow10(0) == 1 && Shifted(5) > 0
  {
  }

  /** In 64 bits an amount comes back from its code exactly if that did not wrap around. */
  lemma WordRoundTrip(n: nat)
    requires n < WORD
    ensures Wrap(Decompressed(Wrap(Compressed(n)))) == n <==> n % 10 == 0 || n < OVERFLOW
  {
    hide Wrap, Compressed, Decompressed;
    CodeFits(n);
    if Compressed(n) < WORD {
      DecompressCompressed(n);
      SmallWrap(Compressed(n));
      SmallWrap(n);
    } else {
      WrappedLost(n);
    }
  }

  /** A 64-bit word as a signed number. */
  function Signed(w: nat): int { if w < WORD / 2 then w else w - WORD }

  /** The code that is written for an amount, and the amount that is read from a code. */
  function AmountCode(v: int): nat { Wrap(Compressed(Wrap(v))) }

  function CodeAmount(x: nat): int { Signed(Wrap(Decompressed(Wrap(x)))) }

  /** The amounts, negative ones as their 64-bit words, that survive. */
  predicate Survives(v: int) {
    -(WORD / 2) <= v < WORD / 2 && (Wrap(v) % 10 == 0 || Wrap(v) < OVERFLOW)
  }

  lemma AmountIff(v: int)
    ensures CodeAmount(AmountCode(v)) == v <==> Survives(v)
    ensures 0 <= v <= MAX_MONEY ==> Survives(v)
  {
    hide Compressed, Decompressed;
    WordRoundTrip(Wrap(v));
  }

  /** The codes of nothing, the smallest amount, a cent, a coin, fifty coins and 21 million coins. */
  lemma SomeCodes()
    ensures Compressed(0) == 0 && Compressed(1) == 1 && Compressed(1000000) == 7 && Compressed(100000000) == 9
    ensures Compressed(50 * 100000000) == 0x32 && Compressed(21000000 * 100000000) == 0x1406f40
  {
    hide Compressed;
    assert Pow10(3) == 1000 && Pow10(6) == 1000000 && Pow10(8) == 100000000 && Pow10(9) == 1000000000;
    CompressDecompressed(0);
    CompressDecompressed(1);
    CompressDecompressed(7);
    CompressDecompressed(9);
    CompressDecompressed(0x32);
    CompressDecompressed(0x1406f40);
  }

  lemma FirstOverflow()
    ensures CodeAmount(AmountCode(OVERFLOW)) == 10000
  {
    hide Compressed;
    PlainCode(OVERFLOW);
    assert AmountCode(OVERFLOW) == 5 && Pow10(4) == 10000;
  }
}
