/** The compact form of targets: an 8-bit exponent of base 256, a sign bit and a 23-bit mantissa. */
module Compact {

  import opened ArithUint256
  import opened Limbs
  import opened Powers

  const SIGN: nat := 0x0080_0000
  const UNIT: nat := 0x0100_0000

  /** 256^k */
  function Bytes(k: nat): (p: nat)
    ensures p > 0
  {
    if k == 0 then 1 else 256 * Bytes(k - 1)
  }

  lemma {:induction false} BytesIsPow2(k: nat)
    ensures Bytes(k) == Pow2(8 * k)
  {
    if k > 0 {
      BytesIsPow2(k - 1);
      assert Pow2(8) == 256;
      Pow2Add(8, 8 * (k - 1));
    }
  }

  lemma {:induction false} BytesAdd(a: nat, b: nat)
    ensures Bytes(a + b) == Bytes(a) * Bytes(b)
  {
    if a > 0 {
      BytesAdd(a - 1, b);
      Associate(256, Bytes(a - 1), Bytes(b));
    }
  }

  lemma SmallBytes()
    ensures Bytes(0) == 1 && Bytes(1) == 0x100 && Bytes(2) == 0x1_0000 && Bytes(3) == UNIT
  {
  }

  lemma BytesStep(k: nat)
    ensures Bytes(k + 1) == 256 * Bytes(k)
  {
  }

  lemma BytesTop()
    ensures Bytes(32) == Modulus()
  {
    hide Bytes, PowB, Pow2;
    BytesIsPow2(32);
    PowBIsPow2(WIDTH);
  }

  lemma {:induction false} BytesGrow(a: nat, b: nat)
    requires a <= b
    ensures Bytes(a) <= Bytes(b)
  {
    if a < b { BytesGrow(a, b - 1); }
  }

  // ------------------------------------------------------------ decoding

  function Exponent(c: nat): nat { c / UNIT }

  /** The mantissa, shifted down for exponents below 3. */
  function Word(c: nat): nat {
    if Exponent(c) <= 3 then Quotient(c % SIGN, Bytes(3 - Exponent(c))) else c % SIGN
  }

  predicate Negative(c: nat) { Word(c) != 0 && c / SIGN % 2 == 1 }

  predicate Overflow(c: nat) {
    Word(c) != 0 && (Exponent(c) > 34 || (Word(c) > 0xff && Exponent(c) > 33) || (Word(c) > 0xffff && Exponent(c) > 32))
  }

  /** What SetCompact gives: overflowing codes wrap around. */
  function Decode(c: nat): nat {
    if Exponent(c) <= 3 then Word(c) else Word(c) * Bytes(Exponent(c) - 3) % Modulus()
  }

  // ------------------------------------------------------------ encoding

  function ByteLength(x: nat): nat {
    if x == 0 then 0 else 1 + ByteLength(x / 256)
  }

  lemma {:induction false} ByteLengthBounds(x: nat)
    requires x > 0
    ensures ByteLength(x) > 0 && Bytes(ByteLength(x) - 1) <= x < Bytes(ByteLength(x))
  {
    if x / 256 > 0 { ByteLengthBounds(x / 256); } else { assert ByteLength(x) == 1; }
  }

  lemma {:induction false} ByteLengthIs(x: nat, n: nat)
    requires n > 0 && Bytes(n - 1) <= x < Bytes(n)
    ensures ByteLength(x) == n
  {
    if n > 1 {
      assert Bytes(n - 2) <= x / 256 < Bytes(n - 1);
      ByteLengthIs(x / 256, n - 1);
    } else {
      assert x / 256 == 0;
    }
  }

  /** The first three bytes of a number of n bytes. */
  function Leading(x: nat, n: nat): nat {
    if n <= 3 then x * Bytes(3 - n) else Quotient(x, Bytes(n - 3))
  }

  /** A mantissa and an exponent, with the mantissa moved out of the sign bit. */
  function Packed(m: nat, n: nat): nat {
    if m >= SIGN then m / 256 + UNIT * (n + 1) else m + UNIT * n
  }

  /** What GetCompact gives for a number that is not marked negative. */
  function Encode(x: nat): nat { Packed(Leading(x, ByteLength(x)), ByteLength(x)) }

  /** A number cut off below its k lowest bytes, with a mantissa that leaves the sign bit free, and that is not cut
      further than needed. */
  ghost predicate CutAt(x: nat, k: nat, v: nat) {
    var q := Quotient(x, Bytes(k));
    v == q * Bytes(k) && q < SIGN && (k == 0 || q >= 0x8000)
  }

  lemma LeadingBelow(x: nat, n: nat)
    requires n == ByteLength(x) && x > 0
    ensures Leading(x, n) < UNIT && (n >= 3 ==> Leading(x, n) >= 0x1_0000)
  {
    ByteLengthBounds(x);
    SmallBytes();
    hide Bytes;
    if n <= 3 {
      BytesAdd(n, 3 - n);
      if n < 3 { TimesLess(x, Bytes(n), Bytes(3 - n)); }
    } else {
      BytesAdd(n - 3, 3);
      BytesAdd(n - 3, 2);
      QuotientBounds(x, Bytes(n - 3), 0x1_0000, UNIT);
    }
  }

  lemma TimesLess(a: nat, b: nat, c: nat)
    requires a < b && c > 0
    ensures a * c < b * c
  {
  }

  lemma QuotientBounds(x: nat, p: nat, lo: nat, hi: nat)
    requires p > 0 && p * lo <= x < p * hi
    ensures lo <= Quotient(x, p) < hi
  {
    var q, r := x / p, x % p;
    assert x == q * p + r;
    assert (hi - q) * p == p * hi - p * q;
    Positive(hi - q, p);
    assert (q + 1 - lo) * p == q * p + p - p * lo;
    Positive(q + 1 - lo, p);
  }

  lemma PackedFields(m: nat, n: nat)
    requires m < UNIT && n < 255
    ensures var c := Packed(m, n);
            && c < 0x1_0000_0000 && c / SIGN % 2 == 0
            && (if m >= SIGN then Exponent(c) == n + 1 && c % SIGN == m / 256 else Exponent(c) == n && c % SIGN == m)
  {
  }

  lemma QuotientOfProduct(x: nat, p: nat)
    requires p > 0
    ensures Quotient(x * p, p) == x
  {
    DivUnique(x * p, p, x, 0);
  }

  lemma QuotientTwice(x: nat, p: nat)
    requires p > 0
    ensures Quotient(x, p) / 256 == Quotient(x, 256 * p)
  {
    var q, r := x / p, x % p;
    assert x == q * p + r;
    var a, b := q / 256, q % 256;
    assert (256 * a + b) * p == a * (256 * p) + b * p;
    Compose(r, p, b, 256);
    assert p * b == b * p && p * 256 == 256 * p;
    DivUnique(x, 256 * p, a, b * p + r);
  }

  lemma QuotientBelow(x: nat, p: nat)
    requires p > 0
    ensures Quotient(x, p) * p <= x < Quotient(x, p) * p + p
  {
  }

  /** A number of at most two bytes is encoded exactly. */
  lemma DecodeShort(x: nat, n: nat)
    requires n == ByteLength(x) <= 2
    ensures var c := Encode(x); c < 0x1_0000_0000 && Decode(c) == x && !Negative(c) && !Overflow(c) && x < SIGN
  {
    SmallBytes();
    if x == 0 {
      PackedFields(0, 0);
      QuotientOfProduct(0, Bytes(3));
    } else {
      ByteLengthBounds(x);
      LeadingBelow(x, n);
      var m := Leading(x, n);
      hide Bytes;
      PackedFields(m, n);
      QuotientOfProduct(x, Bytes(3 - n));
      QuotientOfProduct(x, Bytes(2 - n));
      BytesStep(2 - n);
      assert m == 256 * (x * Bytes(2 - n));
    }
  }

  /** A longer number is cut off below its highest two or three bytes. */
  lemma DecodeLong(x: nat, n: nat) returns (k: nat)
    requires n == ByteLength(x) >= 3 && x < Modulus()
    ensures var c := Encode(x); c < 0x1_0000_0000 && CutAt(x, k, Decode(c)) && !Negative(c) && !Overflow(c)
  {
    assert x > 0;
    hide PowB, Bytes, ByteLength, Quotient;
    AtMost32(x, n);
    LeadingBelow(x, n);
    var m, c := Leading(x, n), Packed(Leading(x, n), n);
    LeadingQuotient(x, n);
    PackedFields(m, n);
    k := if m >= SIGN then n - 2 else n - 3;
    BytesStep(n - 3);
    QuotientTwice(x, Bytes(n - 3));
    CutDecodes(x, k, c);
  }

  lemma AtMost32(x: nat, n: nat)
    requires 0 < x < Modulus() && n == ByteLength(x)
    ensures n <= 32
  {
    hide PowB, Bytes;
    ByteLengthBounds(x);
    BytesTop();
    if n > 32 { BytesGrow(32, n - 1); }
  }

  lemma LeadingQuotient(x: nat, n: nat)
    requires n >= 3
    ensures Leading(x, n) == Quotient(x, Bytes(n - 3))
  {
    SmallBytes();
  }

  /** A code with exponent k + 3 and the leading bytes as mantissa decodes to the number cut at k. */
  lemma CutDecodes(x: nat, k: nat, c: nat)
    requires x < Modulus() && k <= 30 && Exponent(c) == k + 3 && c / SIGN % 2 == 0
    requires c % SIGN == Quotient(x, Bytes(k)) && (k == 0 || c % SIGN >= 0x8000) && (k == 30 ==> c % SIGN <= 0xffff)
    ensures CutAt(x, k, Decode(c)) && !Negative(c) && !Overflow(c)
  {
    hide PowB, Bytes;
    SmallBytes();
    var q := Quotient(x, Bytes(k));
    QuotientBelow(x, Bytes(k));
    assert Quotient(q, 1) == q;
    DivUnique(q * Bytes(k), Modulus(), 0, q * Bytes(k));
  }

  /** Decoding what GetCompact encodes gives the number cut off below its leading bytes, without sign or overflow. */
  lemma DecodeEncode(x: nat) returns (k: nat)
    requires x < Modulus()
    ensures var c := Encode(x); c < 0x1_0000_0000 && CutAt(x, k, Decode(c)) && !Negative(c) && !Overflow(c)
  {
    if ByteLength(x) <= 2 {
      hide Bytes, PowB;
      DecodeShort(x, ByteLength(x));
      SmallBytes();
      k := 0;
      assert Quotient(x, 1) == x;
    } else {
      k := DecodeLong(x, ByteLength(x));
    }
  }

  /** Every code without overflow stands for a mantissa times a power of 256. */
  lemma DecodeShape(c: nat) returns (m: nat, j: nat)
    requires !Overflow(c)
    ensures m < SIGN && Decode(c) == m * Bytes(j)
  {
    hide Bytes, PowB;
    SmallBytes();
    m := Word(c);
    if Exponent(c) <= 3 {
      j := 0;
      QuotientBelow(c % SIGN, Bytes(3 - Exponent(c)));
      assert m <= m * Bytes(3 - Exponent(c)) by { Times(1, Bytes(3 - Exponent(c)), m); }
    } else {
      j := Exponent(c) - 3;
      if m == 0 {
        DivUnique(0, Modulus(), 0, 0);
      } else {
        NoWrap(m, j);
        DivUnique(m * Bytes(j), Modulus(), 0, m * Bytes(j));
      }
    }
  }

  /** A code overflows exactly if its mantissa times its power of 256 needs more than 256 bits. */
  lemma OverflowIff(c: nat)
    ensures Overflow(c) <==> Exponent(c) > 3 && Word(c) * Bytes(Exponent(c) - 3) >= Modulus()
  {
    hide Bytes, PowB;
    SmallBytes();
    var m, e := Word(c), Exponent(c);
    if e > 3 {
      var j := e - 3;
      if Overflow(c) {
        var room: nat := if e > 34 then 0 else if e == 34 then 1 else 2;
        Times(Bytes(room), m, Bytes(j));
        BytesAdd(room, j);
        BytesGrow(32, room + j);
        BytesTop();
      } else if m > 0 {
        NoWrap(m, j);
      }
    } else {
      SmallWord(c);
    }
  }

  lemma SmallWord(c: nat)
    requires Exponent(c) <= 3
    ensures !Overflow(c)
  {
  }

  /** Some codes and their numbers. */
  lemma SomeTargets()
    ensures Decode(0x01123456) == 0x12 && Decode(0x02123456) == 0x1234 && Decode(0x03123456) == 0x123456
    ensures Decode(0x04123456) == 0x12345600 && Decode(0x05009234) == 0x92340000
    ensures Decode(0x20123456) == 0x123456 * Bytes(29)
  {
    hide PowB, Bytes, Decode;
    SmallBytes();
    ShortCode(0x01123456);
    ShortCode(0x02123456);
    ShortCode(0x03123456);
    LongCode(0x04123456, 0x123456, 1);
    LongCode(0x05009234, 0x9234, 2);
    LongCode(0x20123456, 0x123456, 29);
  }

  lemma ShortCode(c: nat)
    requires Exponent(c) <= 3
    ensures Decode(c) == Quotient(c % SIGN, Bytes(3 - Exponent(c)))
  {
  }

  lemma LongCode(c: nat, m: nat, j: nat)
    requires c == UNIT * (j + 3) + m && 0 < m < SIGN && 0 < j <= 29
    ensures Decode(c) == m * Bytes(j)
  {
    hide PowB, Bytes;
    assert Exponent(c) == j + 3 && c % SIGN == m;
    NoWrap(m, j);
    DivUnique(m * Bytes(j), Modulus(), 0, m * Bytes(j));
  }

  /** Some codes with a sign: it counts only if the number is not zero. */
  lemma SomeSigns()
    ensures Decode(0x01fedcba) == 0x7e && Negative(0x01fedcba)
    ensures Decode(0x01803456) == 0 && !Negative(0x01803456)
    ensures Negative(0x04923456) && !Negative(0x04123456) && Overflow(0xff123456)
  {
    hide PowB, Bytes;
    SmallBytes();
  }

  /** The codes of some numbers. */
  lemma SomeCodes()
    ensures Encode(0x12) == 0x01120000 && Encode(0x80) == 0x02008000 && Encode(0x1234) == 0x02123400
    ensures Encode(0x12345600) == 0x04123456 && Encode(0x92340000) == 0x05009234
  {
    hide ByteLength, Bytes;
    SmallBytes();
    BytesStep(3);
    ByteLengthIs(0x12, 1);
    ByteLengthIs(0x80, 1);
    ByteLengthIs(0x1234, 2);
    ByteLengthIs(0x12345600, 4);
    ByteLengthIs(0x92340000, 4);
  }

  lemma NoWrap(m: nat, j: nat)
    requires 0 < m < SIGN && j <= 31 && (m > 0xff ==> j <= 30) && (m > 0xffff ==> j <= 29)
    ensures m * Bytes(j) < Modulus()
  {
    hide Bytes, PowB;
    SmallBytes();
    var room := if m > 0xffff then 3 else if m > 0xff then 2 else 1;
    TimesLess(m, Bytes(room), Bytes(j));
    BytesAdd(room, j);
    BytesGrow(room + j, 32);
    BytesTop();
  }

  /** Decoding GetCompact(x) gives the largest value of any code without overflow that is not above x. */
  lemma LargestBelow(x: nat, c: nat)
    requires x < Modulus()
    ensures Decode(Encode(x)) <= x
    ensures !Overflow(c) && Decode(c) <= x ==> Decode(c) <= Decode(Encode(x))
  {
    hide Bytes, PowB, Encode, Decode, Overflow;
    var k := DecodeEncode(x);
    QuotientBelow(x, Bytes(k));
    if !Overflow(c) && Decode(c) <= x {
      var m, j := DecodeShape(c);
      LargestCut(x, k, m, j);
    }
  }

  lemma LargestCut(x: nat, k: nat, m: nat, j: nat)
    requires m < SIGN && m * Bytes(j) <= x
    requires Quotient(x, Bytes(k)) < SIGN && (k == 0 || Quotient(x, Bytes(k)) >= 0x8000)
    ensures m * Bytes(j) <= Quotient(x, Bytes(k)) * Bytes(k)
  {
    hide Bytes;
    var u, q := Bytes(k), Quotient(x, Bytes(k));
    QuotientBelow(x, u);
    if j >= k {
      BytesAdd(j - k, k);
      Associate(m, Bytes(j - k), u);
      MultipleBelowNext(m * Bytes(j - k), q, u, x);
    } else {
      BytesGrow(j, k - 1);
      BytesStep(k - 1);
      TimesLess(m, SIGN, Bytes(j));
      Scaled(SIGN, Bytes(j), Bytes(k - 1));
      Times(0x8000, q, u);
    }
  }

  lemma MultipleBelowNext(a: nat, q: nat, u: nat, x: nat)
    requires u > 0 && a * u <= x < q * u + u
    ensures a * u <= q * u
  {
    assert (q + 1 - a) * u == q * u + u - a * u;
    Positive(q + 1 - a, u);
    Times(a, q, u);
  }

  /** Rounding to a code is monotone. */
  lemma EncodeMonotone(x: nat, y: nat)
    requires x <= y < Modulus()
    ensures Decode(Encode(x)) <= Decode(Encode(y))
  {
    hide PowB, Encode, Decode, Overflow, Negative;
    var k := DecodeEncode(x);
    LargestBelow(x, 0);
    LargestBelow(y, Encode(x));
  }

  // ------------------------------------------------------------ the operations on 256-bit numbers

  lemma DownBytes(x: nat, k: nat)
    ensures Down(x, 8 * k) == Quotient(x, Bytes(k))
  {
    hide Bytes, Pow2;
    BytesIsPow2(k);
  }

  method SetCompact(nCompact: nat) returns (x: BaseUint, fNegative: bool, fOverflow: bool)
    requires nCompact < 0x1_0000_0000
    ensures x.Valid() && fresh(x) && fresh(x.pn) && x.Value() == Decode(nCompact)
    ensures fNegative == Negative(nCompact) && fOverflow == Overflow(nCompact)
  {
    hide Val, Bytes, PowB, Pow2, Down;
    var nSize, nWord := nCompact / UNIT, nCompact % SIGN;
    if nSize <= 3 {
      DownBytes(nWord, 3 - nSize);
      nWord := Down(nWord, 8 * (3 - nSize));
      WordSmall(nCompact);
      x := new BaseUint(nWord);
    } else {
      x := new BaseUint(nWord);
      BytesIsPow2(nSize - 3);
      x.ShiftLeft(8 * (nSize - 3));
    }
    fNegative := nWord != 0 && nCompact / SIGN % 2 == 1;
    fOverflow := nWord != 0 && (nSize > 34 || (nWord > 0xff && nSize > 33) || (nWord > 0xffff && nSize > 32));
  }

  lemma WordSmall(c: nat)
    ensures Word(c) < SIGN
  {
    hide Bytes;
    if Exponent(c) <= 3 {
      var p := Bytes(3 - Exponent(c));
      QuotientBelow(c % SIGN, p);
      Times(1, p, Word(c));
    }
  }

  /** The byte length from the bit length. */
  lemma BytesOfBits(v: nat, bits: nat)
    requires HasBits(v, bits)
    ensures ByteLength(v) == (bits + 7) / 8
  {
    if v > 0 {
      hide Pow2, Bytes;
      var n := (bits + 7) / 8;
      BytesIsPow2(n);
      BytesIsPow2(n - 1);
      if bits < 8 * n { Pow2Grows(bits, 8 * n); }
      if 8 * (n - 1) < bits - 1 { Pow2Grows(8 * (n - 1), bits - 1); }
      ByteLengthIs(v, n);
    }
  }

  method GetCompact(x: BaseUint, fNegative: bool) returns (nCompact: nat)
    requires x.Valid()
    ensures var c := Encode(x.Value());
            nCompact == if fNegative && c % SIGN != 0 then c + SIGN else c
  {
    hide Val, Bytes, PowB, Pow2, Down, HasBits;
    var bits := x.Bits();
    ghost var v := x.Value();
    BytesOfBits(v, bits);
    var nSize := (bits + 7) / 8;
    LeadingOf(v, nSize);
    if nSize <= 3 {
      nCompact := x.GetLow64();
      BytesIsPow2(3 - nSize);
      nCompact := nCompact * Pow2(8 * (3 - nSize));
    } else {
      var bn := new BaseUint.Copy(x);
      BytesIsPow2(nSize - 3);
      bn.ShiftRight(8 * (nSize - 3));
      nCompact := bn.GetLow64();
    }
    assert nCompact == Leading(v, nSize);
    PackedFields(nCompact, nSize);
    if nCompact >= SIGN {
      nCompact := nCompact / 256;
      nSize := nSize + 1;
    }
    assert nCompact < SIGN && nSize < 256;
    nCompact := nCompact + UNIT * nSize;
    if fNegative && nCompact % SIGN != 0 { nCompact := nCompact + SIGN; }
  }

  /** What GetCompact reads off the low 64 bits is all there is. */
  lemma LeadingOf(v: nat, n: nat)
    requires n == ByteLength(v)
    ensures Leading(v, n) < UNIT
    ensures n <= 3 ==> v % (BASE * BASE) == v
    ensures n > 3 ==> Quotient(v, Bytes(n - 3)) % (BASE * BASE) == Quotient(v, Bytes(n - 3))
  {
    if v == 0 {
      assert n == 0;
    } else {
      LeadingBelow(v, n);
      if n <= 3 {
        ThreeBytes(v, n);
        DivUnique(v, BASE * BASE, 0, v);
      } else {
        hide Bytes, Quotient, ByteLength;
        DivUnique(Leading(v, n), BASE * BASE, 0, Leading(v, n));
      }
    }
  }

  lemma ThreeBytes(v: nat, n: nat)
    requires v > 0 && n == ByteLength(v) <= 3
    ensures v < UNIT
  {
    hide Bytes;
    ByteLengthBounds(v);
    SmallBytes();
    BytesGrow(n, 3);
  }

  /** A code without overflow never stands for 2^256 - 1. */
  lemma NotAllOnes(c: nat)
    requires !Overflow(c)
    ensures Decode(c) + 1 < Modulus()
  {
    hide Decode, Overflow, PowB, Bytes;
    var m, j := DecodeShape(c);
    BytesTop();
    BytesStep(31);
    BytesGrow(3, 32);
    SmallBytes();
    DecodeBelow(c);
    if j > 0 {
      BytesStep(j - 1);
      assert m * (256 * Bytes(j - 1)) == 256 * (m * Bytes(j - 1));
    }
  }

  lemma DecodeBelow(c: nat)
    ensures Decode(c) < Modulus()
  {
    hide PowB, Bytes;
    WordSmall(c);
    BytesTop();
    SmallBytes();
    BytesGrow(3, 32);
  }

  /** 2^256 / (t + 1), computed without leaving 256 bits. */
  lemma ProofOf(t: nat, m: nat)
    requires t + 1 < m
    ensures (m - 1 - t) / (t + 1) + 1 == m / (t + 1)
    ensures t > 0 ==> m / (t + 1) < m
  {
    var d := t + 1;
    var q, r := m / d, m % d;
    assert m == q * d + r;
    assert (q - 1) * d == q * d - d;
    DivUnique(m - d, d, q - 1, r);
  }

  /** The work of a block: zero for a target that is negative, overflowing or zero, and 2^256 / (target + 1)
      otherwise. */
  method GetBlockProof(nBits: nat) returns (work: BaseUint)
    requires nBits < 0x1_0000_0000
    ensures work.Valid()
    ensures work.Value() == if Negative(nBits) || Overflow(nBits)
            || Decode(nBits) == 0 then 0 else Modulus() / (Decode(nBits) + 1)
  {
    hide Val, PowB, Decode, Negative, Overflow;
    var bnTarget, fNegative, fOverflow := SetCompact(nBits);
    var zero := new BaseUint(0);
    var c := bnTarget.CompareTo(zero);
    if fNegative || fOverflow || c == 0 { return zero; }
    NotAllOnes(nBits);
    ProofOf(Decode(nBits), Modulus());
    var one := new BaseUint(1);
    work := bnTarget.Complement();
    bnTarget.Add(one);
    DivUnique(Decode(nBits) + 1, Modulus(), 0, Decode(nBits) + 1);
    var ok := work.Divide(bnTarget);
    work.Add(one);
    DivUnique(Modulus() / (Decode(nBits) + 1), Modulus(), 0, Modulus() / (Decode(nBits) + 1));
  }
}
