/** 256-bit unsigned integers: the limb loops of addition, negation, multiplication, shifts and
    division compute exact results modulo 2^256. */
module ArithUint256 {

  import opened Limbs
  import opened Powers

  const WIDTH: nat := 8

  /** 2^256 */
  function Modulus(): nat { PowB(WIDTH) }

  class BaseUint {
    const pn: array<nat>

    ghost predicate Valid()
      reads this, pn
    {
      pn.Length == WIDTH && AllLimbs(pn[..])
    }

    ghost function Value(): nat
      requires Valid()
      reads this, pn
    {
      Val(pn[..])
    }

    /** From a 64-bit number. */
    constructor (b: nat)
      requires b < BASE * BASE
      ensures Valid() && fresh(pn) && Value() == b
    {
      pn := new nat[WIDTH](_ => 0);
      new;
      pn[0] := b % BASE;
      pn[1] := b / BASE;
      TwoLimbs(pn[..]);
    }

    constructor Copy(b: BaseUint)
      requires b.Valid()
      ensures Valid() && fresh(pn) && pn[..] == b.pn[..] && Value() == b.Value()
    {
      pn := new nat[WIDTH](_ => 0);
      new;
      var i := 0;
      while i < WIDTH
        invariant 0 <= i <= WIDTH && forall k :: 0 <= k < i ==> pn[k] == b.pn[k]
      {
        pn[i] := b.pn[i];
        i := i + 1;
      }
      assert pn[..] == b.pn[..];
    }

    method Add(b: BaseUint)
      requires Valid() && b.Valid()
      modifies pn
      ensures Valid() && Value() == (old(Value()) + old(b.Value())) % Modulus()
    {
      hide Val, PowB;
      ghost var x, y := pn[..], b.pn[..];
      var carry: nat, i: nat := 0, 0;
      SumStart(x, y);
      while i < WIDTH
        invariant 0 <= i <= WIDTH && Valid() && pn[i..] == x[i..] && (b.pn == pn || b.pn[..] == y)
                  && (b.pn == pn ==> x == y)
        invariant SumTo(x, y, pn[..i], carry, i)
      {
        assert pn[i] == pn[i..][0] == x[i] && b.pn[i] == y[i];
        var n := carry + pn[i] + b.pn[i];
        SumStep(x, y, pn[..i], carry, i, n);
        pn[i] := n % BASE;
        assert pn[..i + 1] == pn[..i] + [n % BASE];
        assert pn[i + 1..] == x[i..][1..];
        carry := n / BASE;
        i := i + 1;
      }
      assert pn[..] == pn[..WIDTH];
      SumEnd(x, y, pn[..], carry);
    }

    /** Prefix increment. */
    method Increment()
      requires Valid()
      modifies pn
      ensures Valid() && Value() == (old(Value()) + 1) % Modulus()
    {
      hide Val, PowB;
      ghost var x := pn[..];
      var i: nat := 0;
      pn[0] := (pn[0] + 1) % BASE;
      while pn[i] == 0 && i < WIDTH - 1
        invariant 0 <= i < WIDTH && Valid()
        invariant forall k :: 0 <= k < i ==> pn[k] == 0 && x[k] == BASE - 1
        invariant pn[i] == (x[i] + 1) % BASE && forall k :: i < k < WIDTH ==> pn[k] == x[k]
        decreases WIDTH - i
      {
        i := i + 1;
        pn[i] := (pn[i] + 1) % BASE;
      }
      Rippled(x, pn[..], i);
    }

    /** Prefix decrement. */
    method Decrement()
      requires Valid()
      modifies pn
      ensures Valid() && Value() == (old(Value()) + Modulus() - 1) % Modulus()
    {
      hide Val, PowB;
      ghost var x := pn[..];
      var i: nat := 0;
      pn[0] := (pn[0] + BASE - 1) % BASE;
      while pn[i] == BASE - 1 && i < WIDTH - 1
        invariant 0 <= i < WIDTH && Valid()
        invariant forall k :: 0 <= k < i ==> pn[k] == BASE - 1 && x[k] == 0
        invariant pn[i] == (x[i] + BASE - 1) % BASE && forall k :: i < k < WIDTH ==> pn[k] == x[k]
        decreases WIDTH - i
      {
        i := i + 1;
        pn[i] := (pn[i] + BASE - 1) % BASE;
      }
      Rippled(pn[..], x, i);
      ValBound(pn[..]);
      ValBound(x);
      Predecessor(Val(x), Val(pn[..]), Modulus());
    }

    /** The complement of every limb. */
    method Complement() returns (r: BaseUint)
      requires Valid()
      ensures r.Valid() && fresh(r) && fresh(r.pn) && r.Value() == Modulus() - 1 - Value()
    {
      hide Val, PowB;
      r := new BaseUint(0);
      var i := 0;
      while i < WIDTH
        invariant 0 <= i <= WIDTH && r.Valid() && fresh(r.pn)
        invariant forall k :: 0 <= k < i ==> r.pn[k] == BASE - 1 - pn[k]
      {
        r.pn[i] := BASE - 1 - pn[i];
        i := i + 1;
      }
      Complements(pn[..], r.pn[..]);
    }

    method Negate() returns (r: BaseUint)
      requires Valid()
      ensures r.Valid() && fresh(r) && fresh(r.pn) && r.Value() == (Modulus() - Value()) % Modulus()
    {
      hide Val, PowB;
      r := Complement();
      r.Increment();
    }

    method Subtract(b: BaseUint)
      requires Valid() && b.Valid()
      modifies pn
      ensures Valid() && Value() == (old(Value()) - old(b.Value())) % Modulus()
    {
      hide Val, PowB;
      var negated := b.Negate();
      ValBound(pn[..]);
      ValBound(b.pn[..]);
      Difference(Val(pn[..]), Val(b.pn[..]), Modulus());
      Add(negated);
    }

    /** Multiplication by a 32-bit number. */
    method MultiplyWord(b32: nat)
      requires Valid() && b32 < BASE
      modifies pn
      ensures Valid() && Value() == old(Value()) * b32 % Modulus()
    {
      hide Val, PowB;
      ghost var x := pn[..];
      var carry: nat, i: nat := 0, 0;
      ScaledStart(x, b32);
      while i < WIDTH
        invariant 0 <= i <= WIDTH && Valid() && pn[i..] == x[i..]
        invariant ScaledTo(x, b32, pn[..i], carry, i)
      {
        assert pn[i] == pn[i..][0] == x[i];
        var n := carry + b32 * pn[i];
        ScaledStep(x, b32, pn[..i], carry, i, n);
        pn[i] := n % BASE;
        assert pn[..i + 1] == pn[..i] + [n % BASE];
        assert pn[i + 1..] == x[i..][1..];
        carry := n / BASE;
        i := i + 1;
      }
      assert pn[..] == pn[..WIDTH];
      ScaledEnd(x, b32, pn[..], carry);
    }

    method Clear()
      requires pn.Length == WIDTH
      modifies pn
      ensures Valid() && Value() == 0 && forall k :: 0 <= k < WIDTH ==> pn[k] == 0
    {
      var i := 0;
      while i < WIDTH
        invariant 0 <= i <= WIDTH && forall k :: 0 <= k < i ==> pn[k] == 0
      {
        pn[i] := 0;
        i := i + 1;
      }
      ValZeros(pn[..]);
    }

    ghost predicate Zero()
      reads pn
    {
      forall k :: 0 <= k < pn.Length ==> pn[k] == 0
    }

    /** Multiplication by another number. By itself it gives zero: this number is zeroed before the other one is read.
        */
    method Multiply(b: BaseUint)
      requires Valid() && b.Valid()
      modifies pn
      ensures Valid() && Value() == if b.pn == pn then 0 else old(Value()) * old(b.Value()) % Modulus()
    {
      hide Val, PowB;
      var a := new BaseUint.Copy(this);
      Clear();
      ghost var x, y, lost := a.pn[..], b.pn[..], 0;
      ValEmpty();
      assert x[..0] == [];
      var j: nat := 0;
      while j < WIDTH
        invariant 0 <= j <= WIDTH && Valid() && a.pn[..] == x && b.pn[..] == y && (b.pn == pn ==> Zero())
        invariant ProductTo(x, y, Val(pn[..]), lost, j)
      {
        ghost var start := Val(pn[..]);
        var carry := MultiplyRow(a.pn[j], b, j);
        lost := RowDone(x, y, start, Val(pn[..]), lost, carry, j);
        j := j + 1;
      }
      assert x[..WIDTH] == x;
      ValBound(pn[..]);
      DivUnique(Val(x) * Val(y), Modulus(), lost, Val(pn[..]));
    }

    /** Adds limb * b, shifted up by j limbs. */
    method MultiplyRow(limb: nat, b: BaseUint, j: nat) returns (carry: nat)
      requires Valid() && b.Valid() && limb < BASE && j < WIDTH && (b.pn == pn ==> Zero())
      modifies pn
      ensures Valid() && Value() + Modulus() * carry == old(Value()) + PowB(j) * limb * Val(b.pn[..WIDTH - j])
      ensures b.pn[..] == old(b.pn[..]) && (b.pn == pn ==> Zero())
    {
      hide Val, PowB, RowTo;
      ghost var start, y := Val(pn[..]), b.pn[..];
      carry := 0;
      var i: nat := 0;
      RowStart(pn[..], limb, y, j);
      while i + j < WIDTH
        invariant 0 <= i <= WIDTH - j && Valid() && b.pn[..] == y && (b.pn == pn ==> Zero() && carry == 0)
        invariant RowTo(pn[..], start, limb, y, carry, i, j)
      {
        var n := carry + pn[i + j] + limb * b.pn[i];
        RowStep(pn[..], start, limb, y, carry, i, j, n);
        ghost var was: seq<nat> := pn[..];
        var digit: nat := n % BASE;
        pn[i + j] := digit;
        assert pn[..] == was[i + j := digit];
        carry := n / BASE;
        i := i + 1;
      }
      RowEnd(pn[..], start, limb, y, carry, j);
      assert b.pn[..WIDTH - j] == y[..WIDTH - j];
    }

    /** -1, 0 or 1 as this number is below, equal to or above the other. */
    method CompareTo(b: BaseUint) returns (c: int)
      requires Valid() && b.Valid()
      ensures c == (if Value() < b.Value() then -1 else if Value() > b.Value() then 1 else 0)
    {
      hide Val, PowB;
      var i: nat := WIDTH;
      while i > 0
        invariant 0 <= i <= WIDTH && pn[i..] == b.pn[i..]
      {
        i := i - 1;
        if pn[i] < b.pn[i] {
          HigherLimb(pn[..], b.pn[..], i);
          return -1;
        }
        if pn[i] > b.pn[i] {
          HigherLimb(b.pn[..], pn[..], i);
          return 1;
        }
        assert pn[i..] == [pn[i]] + pn[i + 1..] && b.pn[i..] == [b.pn[i]] + b.pn[i + 1..];
      }
      assert pn[..] == pn[0..] && b.pn[..] == b.pn[0..];
      return 0;
    }

    method ShiftLeft(shift: nat)
      requires Valid()
      modifies pn
      ensures Valid() && Value() == old(Value()) * Pow2(shift) % Modulus()
    {
      hide Val, PowB, Pow2, BitOr, Down, LowBits, Up, ShlState, ShrState, AllLimbs;
      var a := new BaseUint.Copy(this);
      ghost var y := a.pn[..];
      Clear();
      var k, s := shift / 32, shift % 32;
      ShlInit(pn[..], y, k, s);
      var i: nat := 0;
      while i < WIDTH
        invariant 0 <= i <= WIDTH && pn.Length == WIDTH && a.pn[..] == y
        invariant ShlState(pn[..], y, k, s, i)
      {
        ShlStep(pn[..], y, k, s, i);
        ghost var z := pn[..];
        if i + k + 1 < WIDTH && s != 0 {
          pn[i + k + 1] := BitOr(pn[i + k + 1], Down(a.pn[i], 32 - s));
        }
        if i + k < WIDTH {
          pn[i + k] := BitOr(pn[i + k], Up(a.pn[i], s));
        }
        assert pn[..] == ShlBody(z, y, k, s, i);
        i := i + 1;
      }
      ShlValue(y, pn[..], k, s);
    }

    method ShiftRight(shift: nat)
      requires Valid()
      modifies pn
      ensures Valid() && Value() == old(Value()) / Pow2(shift)
    {
      hide Val, PowB, Pow2, BitOr, Down, LowBits, Up, ShlState, ShrState, AllLimbs;
      var a := new BaseUint.Copy(this);
      ghost var y := a.pn[..];
      Clear();
      var k, s := shift / 32, shift % 32;
      ShlInit(pn[..], y, k, s);
      var i: nat := 0;
      while i < WIDTH
        invariant 0 <= i <= WIDTH && pn.Length == WIDTH && a.pn[..] == y
        invariant ShrState(pn[..], y, k, s, i)
      {
        ShrStep(pn[..], y, k, s, i);
        ghost var z := pn[..];
        if i >= k + 1 && s != 0 {
          pn[i - k - 1] := BitOr(pn[i - k - 1], Up(a.pn[i], 32 - s));
        }
        if i >= k {
          pn[i - k] := BitOr(pn[i - k], Down(a.pn[i], s));
        }
        assert pn[..] == ShrBody(z, y, k, s, i);
        i := i + 1;
      }
      ShrValue(y, pn[..], k, s);
    }

    /** The position of the highest bit set plus one, or zero if the value is zero. */
    method Bits() returns (n: nat)
      requires Valid()
      ensures HasBits(Value(), n) && n <= 256
    {
      hide Val, PowB, Pow2, HasBits;
      var pos: nat := WIDTH;
      while pos > 0
        invariant 0 <= pos <= WIDTH && forall k :: pos <= k < WIDTH ==> pn[k] == 0
      {
        pos := pos - 1;
        if pn[pos] != 0 {
          var top := TopBit(pn[pos]);
          TopLimb(pn[..], pos, top);
          return 32 * pos + top + 1;
        }
      }
      ValZeros(pn[..]);
      NoBits();
      return 0;
    }

    /** The low 64 bits. */
    method GetLow64() returns (low: nat)
      requires Valid()
      ensures low == Value() % (BASE * BASE)
    {
      hide Val, PowB, BitOr;
      low := BitOr(pn[0], BASE * pn[1]);
      LowLimbs(pn[..]);
    }

    /** Sets a bit that is clear, with all lower bits clear as well. */
    method SetBit(shift: nat)
      requires Valid() && shift < 256 && Value() % Pow2(shift + 1) == 0
      modifies pn
      ensures Valid() && Value() == old(Value()) + Pow2(shift)
    {
      hide Val, PowB, Pow2, BitOr, Down, LowBits, Up;
      ghost var z := pn[..];
      SetBitLimb(z, shift / 32, shift % 32);
      pn[shift / 32] := BitOr(pn[shift / 32], Pow2(shift % 32));
      assert pn[..] == z[shift / 32 := BitOr(z[shift / 32], Pow2(shift % 32))];
    }

    /** Division by shifting and subtracting. Answers false for division by zero. */
    method Divide(b: BaseUint) returns (ok: bool)
      requires Valid() && b.Valid()
      modifies pn
      ensures Valid() && (ok <==> old(b.Value()) != 0)
      ensures ok ==> Value() == old(Value()) / old(b.Value())
    {
      hide Val, PowB, Pow2, HasBits;
      var div := new BaseUint.Copy(b);
      var num := new BaseUint.Copy(this);
      ghost var n, d := Val(num.pn[..]), Val(div.pn[..]);
      Clear();
      var numBits := num.Bits();
      var divBits := div.Bits();
      BitsZero(d, divBits);
      if divBits == 0 { return false; }
      if divBits > numBits {
        Smaller(n, d, numBits, divBits);
        return true;
      }
      Aligned(n, d, numBits, divBits);
      div.ShiftLeft(numBits - divBits);
      LongDivision(num, div, numBits - divBits, n, d);
      return true;
    }

    method LongDivision(num: BaseUint, div: BaseUint, start: nat, ghost n: nat, ghost d: nat)
      requires Valid() && num.Valid() && div.Valid() && num.pn != div.pn && num.pn != pn && div.pn != pn
      requires start < 256 && d > 0 && Dividing(n, d, Value(), num.Value(), start + 1) && div.Value() == d * Pow2(start)
      modifies pn, num.pn, div.pn
      ensures Valid() && Value() == n / d
    {
      hide Val, PowB, Pow2, Dividing;
      var shift: int := start;
      while shift >= 0
        invariant -1 <= shift < 256 && Valid() && num.Valid() && div.Valid()
        invariant Dividing(n, d, Val(pn[..]), Val(num.pn[..]), shift + 1)
        invariant shift >= 0 ==> Val(div.pn[..]) == d * Pow2(shift)
      {
        var c := num.CompareTo(div);
        ValBound(num.pn[..]);
        DivideStep(n, d, Val(pn[..]), Val(num.pn[..]), shift, c >= 0);
        if c >= 0 {
          num.Subtract(div);
          SetBit(shift);
        }
        ShiftedBack(d, shift);
        div.ShiftRight(1);
        shift := shift - 1;
      }
      Divided(n, d, Val(pn[..]), Val(num.pn[..]));
    }
  }

  lemma LowLimbs(s: seq<nat>)
    requires |s| == WIDTH && AllLimbs(s)
    ensures BitOr(s[0], BASE * s[1]) == Val(s) % (BASE * BASE)
  {
    hide Pow2, BitOr;
    Pow2At32();
    OrDisjoint(s[0], BASE * s[1], 32, s[1]);
    var t := Val(s[1..][1..]);
    assert Val(s) == s[0] + BASE * (s[1] + BASE * t);
    DivUnique(Val(s), BASE * BASE, t, s[0] + BASE * s[1]);
  }

  lemma TwoLimbs(s: seq<nat>)
    requires |s| == WIDTH && forall i :: 2 <= i < WIDTH ==> s[i] == 0
    ensures Val(s) == s[0] + BASE * s[1]
  {
    ValZeros(s[1..][1..]);
  }

  // ------------------------------------------------------------ addition

  /** The first i limbs of the sum and the carry make the sum of the first i limbs. */
  ghost predicate SumTo(x: seq<nat>, y: seq<nat>, z: seq<nat>, carry: nat, i: nat) {
    i <= |x| == |y| && |z| == i && carry <= 1 && Val(z) + PowB(i) * carry == Val(x[..i]) + Val(y[..i])
  }

  lemma SumStart(x: seq<nat>, y: seq<nat>)
    requires |x| == |y|
    ensures SumTo(x, y, [], 0, 0)
  {
  }

  lemma SumStep(x: seq<nat>, y: seq<nat>, z: seq<nat>, carry: nat, i: nat, n: nat)
    requires SumTo(x, y, z, carry, i) && i < |x| && x[i] < BASE && y[i] < BASE && n == carry + x[i] + y[i]
    ensures SumTo(x, y, z + [n % BASE], n / BASE, i + 1)
  {
    ValTake(x, i);
    ValTake(y, i);
    ValAppend(z, n % BASE);
    hide Val;
    DigitAndCarry(PowB(i), n);
    Distribute3(PowB(i), carry, x[i], y[i]);
  }

  /** A digit and a carry of weight p make up n. */
  lemma DigitAndCarry(p: nat, n: nat)
    ensures p * (n % BASE) + BASE * p * (n / BASE) == p * n
  {
    var d, c := n % BASE, n / BASE;
    assert n == d + BASE * c;
    assert p * (d + BASE * c) == p * d + p * (BASE * c);
    assert p * (BASE * c) == BASE * p * c;
  }

  lemma Distribute3(p: nat, a: nat, b: nat, c: nat)
    ensures p * (a + b + c) == p * a + p * b + p * c
  {
  }

  lemma SumEnd(x: seq<nat>, y: seq<nat>, z: seq<nat>, carry: nat)
    requires |x| == |y| == |z| == WIDTH && AllLimbs(z) && SumTo(x, y, z, carry, WIDTH)
    ensures Val(z) == (Val(x) + Val(y)) % Modulus()
  {
    hide Val, PowB;
    assert x[..WIDTH] == x && y[..WIDTH] == y;
    ValBound(z);
    DivUnique(Val(x) + Val(y), Modulus(), carry, Val(z));
  }

  // ------------------------------------------------------------ increment, decrement, negation

  /** z is x + 1 modulo 2^256: the limbs below i wrap to zero, limb i goes up by one, those above stay. */
  lemma Rippled(x: seq<nat>, z: seq<nat>, i: nat)
    requires |x| == |z| == WIDTH && AllLimbs(x) && AllLimbs(z) && i < WIDTH
    requires forall k :: 0 <= k < i ==> x[k] == BASE - 1 && z[k] == 0
    requires z[i] == (x[i] + 1) % BASE && (z[i] != 0 || i == WIDTH - 1)
    requires forall k :: i < k < WIDTH ==> x[k] == z[k]
    ensures Val(z) == (Val(x) + 1) % Modulus()
  {
    hide Val, PowB;
    ValTake(x, i);
    ValTake(z, i);
    ValSplit(x, i + 1);
    ValSplit(z, i + 1);
    assert x[i + 1..] == z[i + 1..];
    ValNines(x[..i]);
    ValZeros(z[..i]);
    ValBound(x);
    ValBound(z);
    PowBStep(i);
    var rest := PowB(i + 1) * Val(x[i + 1..]);
    Ripple(PowB(i), x[i], z[i], rest);
    if z[i] != 0 {
      DivUnique(Val(x) + 1, Modulus(), 0, Val(z));
    } else {
      assert x[i + 1..] == [];
      ValEmpty();
      DivUnique(Val(x) + 1, Modulus(), 1, Val(z));
    }
  }

  lemma Ripple(p: nat, x: nat, z: nat, rest: nat)
    requires p > 0 && x < BASE && z == (x + 1) % BASE
    ensures z != 0 ==> p - 1 + p * x + rest + 1 == p * z + rest
    ensures z == 0 ==> p - 1 + p * x + rest + 1 == BASE * p + rest && p * z == 0
  {
    assert p * (x + 1) == p * x + p;
  }

  lemma ValEmpty()
    ensures Val([]) == 0
  {
  }

  lemma {:induction false} ValNines(s: seq<nat>)
    requires forall k :: 0 <= k < |s| ==> s[k] == BASE - 1
    ensures Val(s) == PowB(|s|) - 1
  {
    if s != [] { ValNines(s[1..]); }
  }

  lemma Predecessor(x: nat, z: nat, m: nat)
    requires m > 0 && x < m && z < m && x == (z + 1) % m
    ensures z == (x + m - 1) % m
  {
    if z + 1 < m {
      DivUnique(z + 1, m, 0, z + 1);
      DivUnique(x + m - 1, m, 1, z);
    } else {
      DivUnique(z + 1, m, 1, 0);
      DivUnique(x + m - 1, m, 0, z);
    }
  }

  lemma {:induction false} Complements(x: seq<nat>, z: seq<nat>)
    requires |x| == |z| && AllLimbs(x) && forall k :: 0 <= k < |x| ==> z[k] == BASE - 1 - x[k]
    ensures Val(x) + Val(z) == PowB(|x|) - 1
  {
    if x != [] { Complements(x[1..], z[1..]); }
  }

  lemma Difference(a: nat, b: nat, m: nat)
    requires a < m && b < m
    ensures (a + (m - b) % m) % m == (a - b) % m
  {
    var negated := if b == 0 then 0 else m - b;
    DivUnique(m - b, m, if b == 0 then 1 else 0, negated);
    if a >= b {
      DivUnique(a - b, m, 0, a - b);
      DivUnique(a + negated, m, if b == 0 then 0 else 1, a - b);
    } else {
      DivUnique(a - b, m, -1, a - b + m);
      DivUnique(a + negated, m, 0, a - b + m);
    }
  }

  // ------------------------------------------------------------ multiplication by a word

  ghost predicate ScaledTo(x: seq<nat>, b: nat, z: seq<nat>, carry: nat, i: nat) {
    i <= |x| && |z| == i && carry < BASE && Val(z) + PowB(i) * carry == Val(x[..i]) * b
  }

  lemma ScaledStart(x: seq<nat>, b: nat)
    ensures ScaledTo(x, b, [], 0, 0)
  {
  }

  lemma ScaledStep(x: seq<nat>, b: nat, z: seq<nat>, carry: nat, i: nat, n: nat)
    requires ScaledTo(x, b, z, carry, i) && i < |x| && x[i] < BASE && b < BASE && n == carry + b * x[i]
    ensures ScaledTo(x, b, z + [n % BASE], n / BASE, i + 1) && n < BASE * BASE
  {
    ValTake(x, i);
    ValAppend(z, n % BASE);
    hide Val;
    WordProduct(b, x[i], carry, 0);
    DigitAndCarry(PowB(i), n);
    ScaleStep(Val(x[..i]), PowB(i), x[i], b, carry);
  }

  lemma ScaleStep(v: nat, p: nat, x: nat, b: nat, carry: nat)
    ensures (v + p * x) * b == v * b + p * (carry + b * x) - p * carry
  {
    assert p * (carry + b * x) == p * carry + p * (b * x);
    assert (v + p * x) * b == v * b + p * x * b;
    assert p * x * b == p * (b * x);
  }

  /** A product of two words and two more words fits twice the word size. */
  lemma WordProduct(a: nat, b: nat, c: nat, d: nat)
    requires a < BASE && b < BASE && c < BASE && d < BASE
    ensures Mul(a, b) + c + d < BASE * BASE && (Mul(a, b) + c + d) / BASE < BASE
  {
    MulBound(a, b, BASE - 1);
  }

  lemma MulBound(a: nat, b: nat, m: nat)
    requires a <= m && b <= m
    ensures a * b <= m * m
  {
    assert a * b <= m * b;
    assert m * b <= m * m;
  }

  lemma ScaledEnd(x: seq<nat>, b: nat, z: seq<nat>, carry: nat)
    requires |x| == |z| == WIDTH && AllLimbs(z) && ScaledTo(x, b, z, carry, WIDTH)
    ensures Val(z) == Val(x) * b % Modulus()
  {
    hide Val, PowB;
    assert x[..WIDTH] == x;
    ValBound(z);
    DivUnique(Val(x) * b, Modulus(), carry, Val(z));
  }

  // ------------------------------------------------------------ multiplication

  /** After j rows the result, with what was lost above 2^256, is the product with the first j limbs. */
  ghost predicate ProductTo(x: seq<nat>, y: seq<nat>, z: nat, lost: nat, j: nat) {
    j <= |x| == |y| == WIDTH && z + Modulus() * lost == Val(x[..j]) * Val(y)
  }

  lemma RowDone(x: seq<nat>, y: seq<nat>, start: nat, z: nat, lost: nat, carry: nat, j: nat) returns (lost': nat)
    requires ProductTo(x, y, start, lost, j) && j < WIDTH
    requires z + Modulus() * carry == start + PowB(j) * x[j] * Val(y[..WIDTH - j])
    ensures ProductTo(x, y, z, lost', j + 1)
  {
    hide Val, PowB;
    var high := Val(y[WIDTH - j..]);
    lost' := lost + carry + x[j] * high;
    ValTake(x, j);
    ValSplit(y, WIDTH - j);
    PowBAdd(j, WIDTH - j);
    RowSum(Val(x[..j]), PowB(j), x[j], Val(y[..WIDTH - j]), PowB(WIDTH - j), high, Val(y));
    Distribute3(Modulus(), lost, carry, x[j] * high);
  }

  lemma RowSum(v: nat, p: nat, x: nat, low: nat, q: nat, high: nat, y: nat)
    requires y == low + q * high
    ensures (v + p * x) * y == v * y + p * x * low + p * q * (x * high)
  {
    assert (v + p * x) * y == v * y + p * x * y;
    assert p * x * (low + q * high) == p * x * low + p * x * (q * high);
    assert p * x * (q * high) == p * q * (x * high);
  }

  /** After i limbs of a row, the result and the carry have grown by the limb times the first i limbs. */
  ghost predicate RowTo(z: seq<nat>, start: nat, limb: nat, y: seq<nat>, carry: nat, i: nat, j: nat) {
    && |z| == |y| == WIDTH && i + j <= WIDTH && carry < BASE
    && Val(z) + Mul(PowB(i + j), carry) == start + Mul(Mul(PowB(j), limb), Val(y[..i]))
  }

  lemma RowStart(z: seq<nat>, limb: nat, y: seq<nat>, j: nat)
    requires |z| == |y| == WIDTH && j <= WIDTH
    ensures RowTo(z, Val(z), limb, y, 0, 0, j)
  {
    hide Val, PowB;
    ValEmpty();
    assert y[..0] == [];
  }

  lemma RowStep(s: seq<nat>, start: nat, limb: nat, y: seq<nat>, carry: nat, i: nat, j: nat, n: nat)
    requires RowTo(s, start, limb, y, carry, i, j) && i + j < WIDTH && n == carry + s[i + j] + Mul(limb, y[i])
    requires limb < BASE && AllLimbs(s) && AllLimbs(y)
    ensures var digit: nat := n % BASE; RowTo(s[i + j := digit], start, limb, y, n / BASE, i + 1, j)
    ensures n < BASE * BASE
  {
    hide Val, PowB, Mul;
    var m := Mul(limb, y[i]);
    WordProduct(limb, y[i], carry, s[i + j]);
    RowDigit(s, carry, i + j, m, n);
    RowLimb(limb, y, i, j, m);
    RowJoin(s, start, limb, y, carry, i, j, m, n % BASE, n / BASE);
  }

  lemma RowJoin(s: seq<nat>, start: nat, limb: nat, y: seq<nat>, carry: nat, i: nat, j: nat, m: nat, digit: nat,
                carry': nat)
    requires RowTo(s, start, limb, y, carry, i, j) && i + j < WIDTH && carry' < BASE
    requires Val(s[i + j := digit]) + Mul(PowB(i + j + 1), carry') ==
               Val(s) + Mul(PowB(i + j), carry) + Mul(PowB(i + j), m)
    requires Mul(Mul(PowB(j), limb), Val(y[..i + 1])) == Mul(Mul(PowB(j), limb), Val(y[..i])) + Mul(PowB(i + j), m)
    ensures RowTo(s[i + j := digit], start, limb, y, carry', i + 1, j)
  {
    hide Val, PowB, Mul;
    assert i + 1 + j == i + j + 1;
  }

  lemma RowDigit(s: seq<nat>, carry: nat, k: nat, m: nat, n: nat)
    requires k < |s| && n == carry + s[k] + m
    ensures var digit: nat := n % BASE;
            Val(s[k := digit]) + Mul(PowB(k + 1), n / BASE) == Val(s) + Mul(PowB(k), carry) + Mul(PowB(k), m)
  {
    hide Val, PowB;
    ValUpdate(s, k, n % BASE);
    PowBStep(k);
    DigitAndCarry(PowB(k), n);
    Distribute3(PowB(k), carry, s[k], m);
  }

  lemma RowLimb(limb: nat, y: seq<nat>, i: nat, j: nat, m: nat)
    requires i < |y| && m == Mul(limb, y[i])
    ensures Mul(Mul(PowB(j), limb), Val(y[..i + 1])) == Mul(Mul(PowB(j), limb), Val(y[..i])) + Mul(PowB(i + j), m)
  {
    hide Val, PowB;
    ValTake(y, i);
    PowBAdd(i, j);
    RowShift(PowB(j), PowB(i), limb, Val(y[..i]), y[i]);
  }

  lemma RowEnd(z: seq<nat>, start: nat, limb: nat, y: seq<nat>, carry: nat, j: nat)
    requires j <= WIDTH && RowTo(z, start, limb, y, carry, WIDTH - j, j)
    ensures Val(z) + Modulus() * carry == start + PowB(j) * limb * Val(y[..WIDTH - j])
  {
  }

  lemma RowShift(p: nat, q: nat, limb: nat, v: nat, d: nat)
    ensures p * limb * (v + q * d) == p * limb * v + q * p * (limb * d)
  {
    assert p * limb * (v + q * d) == p * limb * v + p * limb * (q * d);
    assert p * limb * (q * d) == q * p * (limb * d);
  }

  // ------------------------------------------------------------ comparison

  /** The highest limb that differs decides. */
  lemma HigherLimb(x: seq<nat>, y: seq<nat>, i: nat)
    requires |x| == |y| && i < |x| && AllLimbs(x) && AllLimbs(y)
    requires x[i] < y[i] && x[i + 1..] == y[i + 1..]
    ensures Val(x) < Val(y)
  {
    hide Val, PowB;
    ValSplit(x, i + 1);
    ValSplit(y, i + 1);
    ValTake(x, i);
    ValTake(y, i);
    ValBound(x[..i]);
    Compose(Val(x[..i]), PowB(i), x[i], y[i]);
  }

  // ------------------------------------------------------------ shift left

  /** What limb i - 1 spills into limb i. */
  function Spill(y: seq<nat>, s: nat, i: nat): nat
    requires i <= |y| && s < 32
  {
    if i == 0 then 0 else Down(y[i - 1], 32 - s)
  }

  function ShlLimb(y: seq<nat>, k: nat, s: nat, j: nat): nat
    requires s < 32 && j < |y|
  {
    if j < k then 0 else Spill(y, s, j - k) + Up(y[j - k], s)
  }

  ghost predicate ShlState(z: seq<nat>, y: seq<nat>, k: nat, s: nat, i: nat) {
    && |z| == |y| == WIDTH && s < 32 && i <= WIDTH && AllLimbs(y)
    && forall j :: 0 <= j < WIDTH ==>
         z[j] == if j < k + i then ShlLimb(y, k, s, j) else if j == k + i then Spill(y, s, i) else 0
  }

  lemma OrZero(x: nat)
    ensures BitOr(0, x) == x
  {
  }

  /** The body of the loop. */
  function ShlBody(z: seq<nat>, y: seq<nat>, k: nat, s: nat, i: nat): seq<nat>
    requires |z| == |y| == WIDTH && s < 32 && i < WIDTH
  {
    var z1 := if i + k + 1 < WIDTH && s != 0 then z[i + k + 1 := BitOr(z[i + k + 1], Down(y[i], 32 - s))] else z;
    if i + k < WIDTH then z1[i + k := BitOr(z1[i + k], Up(y[i], s))] else z1
  }

  /** The or of each step is an addition. */
  lemma ShlOr(y: seq<nat>, s: nat, i: nat)
    requires |y| == WIDTH && AllLimbs(y) && s < 32 && i < WIDTH
    ensures BitOr(0, Down(y[i], 32 - s)) == Spill(y, s, i + 1)
    ensures s == 0 ==> Spill(y, s, i + 1) == 0
    ensures BitOr(Spill(y, s, i), Up(y[i], s)) == Spill(y, s, i) + Up(y[i], s)
  {
    hide Pow2, BitOr, Down, LowBits, Up;
    OrZero(Down(y[i], 32 - s));
    ShiftParts(y[i], s);
    if i > 0 { ShiftParts(y[i - 1], s); }
    OrDisjoint(Spill(y, s, i), Up(y[i], s), s, LowBits(y[i], 32 - s));
    if s == 0 { WholeDown(y[i]); }
  }

  lemma ShlStep(z: seq<nat>, y: seq<nat>, k: nat, s: nat, i: nat)
    requires ShlState(z, y, k, s, i) && i < WIDTH
    ensures ShlState(ShlBody(z, y, k, s, i), y, k, s, i + 1)
  {
    hide Pow2, BitOr, Down, LowBits, Up;
    ShlOr(y, s, i);
  }

  lemma ShlInit(z: seq<nat>, y: seq<nat>, k: nat, s: nat)
    requires |z| == |y| == WIDTH && AllLimbs(y) && s < 32 && forall j :: 0 <= j < WIDTH ==> z[j] == 0
    ensures ShlState(z, y, k, s, 0) && ShrState(z, y, k, s, 0)
  {
  }

  lemma {:induction false} ShlPrefix(y: seq<nat>, z: seq<nat>, k: nat, s: nat, i: nat)
    requires |y| == |z| == WIDTH && s < 32 && AllLimbs(y) && k + i <= WIDTH
    requires forall j :: 0 <= j < WIDTH ==> z[j] == ShlLimb(y, k, s, j)
    ensures Val(z[k..k + i]) + PowB(i) * Spill(y, s, i) == Val(y[..i]) * Pow2(s)
  {
    hide Val, PowB, Pow2, Down, LowBits, Up;
    if i == 0 {
      ValEmpty();
      assert z[k..k + i] == [] && y[..i] == [];
    } else {
      ShlPrefix(y, z, k, s, i - 1);
      assert z[k..k + i] == z[k..][..i] && z[k..k + i - 1] == z[k..][..i - 1];
      ValTake(z[k..], i - 1);
      ValTake(y, i - 1);
      ShiftParts(y[i - 1], s);
      PowBStep(i - 1);
      ShlSum(Val(z[k..k + i - 1]), Val(y[..i - 1]), PowB(i - 1), Pow2(s), Spill(y, s, i - 1), Up(y[i - 1], s),
          Spill(y, s, i), y[i - 1]);
    }
  }

  lemma ShlSum(v: nat, w: nat, b: nat, p: nat, spill: nat, kept: nat, next: nat, x: nat)
    requires v + b * spill == w * p && x * p == kept + BASE * next
    ensures v + b * (spill + kept) + BASE * b * next == (w + b * x) * p
  {
    assert b * (spill + kept) == b * spill + b * kept;
    assert (w + b * x) * p == w * p + b * x * p;
    assert b * x * p == b * (x * p);
    assert b * (kept + BASE * next) == b * kept + b * (BASE * next);
    assert b * (BASE * next) == BASE * b * next;
  }

  lemma LimbsBelow(y: seq<nat>, z: seq<nat>, k: nat, s: nat)
    requires |y| == |z| == WIDTH && s < 32 && AllLimbs(y) && forall j :: 0 <= j < WIDTH ==> z[j] == ShlLimb(y, k, s, j)
    ensures AllLimbs(z)
  {
    hide Pow2, Down, LowBits, Up;
    forall j | 0 <= j < WIDTH
      ensures z[j] < BASE
    {
      if j >= k {
        ShiftParts(y[j - k], s);
        Pow2At32();
        Pow2Add(s, 32 - s);
        if j > k { ShiftParts(y[j - k - 1], s); }
        Compose(Spill(y, s, j - k), Pow2(s), LowBits(y[j - k], 32 - s), Pow2(32 - s));
      }
    }
  }

  lemma ShlValue(y: seq<nat>, z: seq<nat>, k: nat, s: nat)
    requires ShlState(z, y, k, s, WIDTH)
    ensures AllLimbs(z) && Val(z) == Val(y) * Pow2(32 * k + s) % Modulus()
  {
    hide Val, PowB, Pow2, Down, LowBits, Up;
    LimbsBelow(y, z, k, s);
    ValBound(z);
    PowBIsPow2(k);
    Pow2Add(32 * k, s);
    if k < WIDTH {
      var i := WIDTH - k;
      ShlPrefix(y, z, k, s, i);
      assert z[k..k + i] == z[k..];
      ValSplit(z, k);
      ValZeros(z[..k]);
      ValSplit(y, i);
      PowBAdd(k, i);
      ShlTotal(Val(z[k..]), Val(y[..i]), PowB(k), PowB(i), Pow2(s), Spill(y, s, i), Val(y[i..]));
      DivUnique(Val(y) * Pow2(32 * k + s), Modulus(), Spill(y, s, i) + Val(y[i..]) * Pow2(s), Val(z));
    } else {
      ValZeros(z);
      PowBAdd(WIDTH, k - WIDTH);
      assert Val(y) * (Modulus() * PowB(k - WIDTH) * Pow2(s)) == Val(y) * PowB(k - WIDTH) * Pow2(s) * Modulus() by {
        Regroup(Val(y), Modulus(), PowB(k - WIDTH), Pow2(s));
      }
      DivUnique(Val(y) * Pow2(32 * k + s), Modulus(), Val(y) * PowB(k - WIDTH) * Pow2(s), 0);
    }
  }

  lemma Regroup(v: nat, m: nat, b: nat, p: nat)
    ensures v * (m * b * p) == v * b * p * m
  {
    assert m * b * p == m * (b * p);
    assert v * (m * (b * p)) == v * (b * p) * m;
    assert v * (b * p) == v * b * p;
  }

  lemma ShlTotal(v: nat, w: nat, bk: nat, bi: nat, p: nat, c: nat, h: nat)
    requires v + bi * c == w * p
    ensures (w + bi * h) * (bk * p) == (c + h * p) * (bk * bi) + bk * v
  {
    assert (w + bi * h) * (bk * p) == w * (bk * p) + bi * h * (bk * p);
    assert w * (bk * p) == bk * (w * p);
    assert bk * (v + bi * c) == bk * v + bk * (bi * c);
    assert bk * (bi * c) == c * (bk * bi);
    assert bi * h * (bk * p) == h * p * (bk * bi);
    assert (c + h * p) * (bk * bi) == c * (bk * bi) + h * p * (bk * bi);
  }

  // ------------------------------------------------------------ shift right

  function ShrLimb(y: seq<nat>, k: nat, s: nat, j: nat): nat
    requires s < 32
  {
    (if j + k < |y| then Down(y[j + k], s) else 0) + (if j + k + 1 < |y| then Up(y[j + k + 1], 32 - s) else 0)
  }

  ghost predicate ShrState(z: seq<nat>, y: seq<nat>, k: nat, s: nat, i: nat) {
    && |z| == |y| == WIDTH && s < 32 && i <= WIDTH && AllLimbs(y)
    && forall j :: 0 <= j < WIDTH ==>
         z[j] == if j + k + 1 < i
             || i == WIDTH then ShrLimb(y, k, s, j) else if j + k + 1 == i then Down(y[j + k], s) else 0
  }

  function ShrBody(z: seq<nat>, y: seq<nat>, k: nat, s: nat, i: nat): seq<nat>
    requires |z| == |y| == WIDTH && s < 32 && i < WIDTH
  {
    var z1 := if i >= k + 1 && s != 0 then z[i - k - 1 := BitOr(z[i - k - 1], Up(y[i], 32 - s))] else z;
    if i >= k then z1[i - k := BitOr(z1[i - k], Down(y[i], s))] else z1
  }

  lemma ShrOr(y: seq<nat>, s: nat, i: nat)
    requires |y| == WIDTH && AllLimbs(y) && s < 32 && i < WIDTH
    ensures i >= 1 ==> BitOr(Down(y[i - 1], s), Up(y[i], 32 - s)) == Down(y[i - 1], s) + Up(y[i], 32 - s)
    ensures s == 0 ==> Up(y[i], 32 - s) == 0
    ensures BitOr(0, Down(y[i], s)) == Down(y[i], s)
  {
    hide Pow2, BitOr, Down, LowBits, Up;
    OrZero(Down(y[i], s));
    ShiftParts(y[i], 32 - s);
    if i >= 1 {
      ShiftParts(y[i - 1], 32 - s);
      OrDisjoint(Down(y[i - 1], s), Up(y[i], 32 - s), 32 - s, LowBits(y[i], s));
    }
    if s == 0 { WholeUp(y[i]); }
  }

  lemma ShrStep(z: seq<nat>, y: seq<nat>, k: nat, s: nat, i: nat)
    requires ShrState(z, y, k, s, i) && i < WIDTH
    ensures ShrState(ShrBody(z, y, k, s, i), y, k, s, i + 1)
  {
    hide Pow2, BitOr, Down, LowBits, Up;
    ShrOr(y, s, i);
  }

  lemma WholeUp(x: nat)
    ensures Up(x, 32) == 0
  {
    hide Pow2;
    Pow2At32();
    DivUnique(x * BASE, BASE, x, 0);
  }

  lemma WholeDown(x: nat)
    requires x < BASE
    ensures Down(x, 32) == 0
  {
    hide Pow2;
    Pow2At32();
    DivUnique(x, BASE, 0, x);
  }

  /** What a shift right by s drops out of limb i. */
  function Dropped(y: seq<nat>, s: nat, i: nat): nat {
    if i < |y| then LowBits(y[i], s) else 0
  }

  lemma {:induction false} ShrPrefix(y: seq<nat>, z: seq<nat>, s: nat, i: nat)
    requires i <= |y| <= |z| && s < 32 && AllLimbs(y)
    requires forall j :: 0 <= j < |y| ==> z[j] == ShrLimb(y, 0, s, j)
    ensures Pow2(s) * Val(z[..i]) + Dropped(y, s, 0) == Val(y[..i]) + PowB(i) * Dropped(y, s, i)
  {
    hide Val, PowB, Pow2, Down, LowBits, Up;
    if i == 0 {
      ValEmpty();
      PowBZero();
      assert z[..i] == [] && y[..i] == [];
    } else {
      ShrPrefix(y, z, s, i - 1);
      var x, n := y[i - 1], if i < |y| then y[i] else 0;
      ValTake(y, i - 1);
      ValTake(z, i - 1);
      ShiftParts(x, 32 - s);
      ShiftParts(n, 32 - s);
      ZeroParts(s);
      PowBStep(i - 1);
      ShrSum(Val(z[..i - 1]), Val(y[..i - 1]), PowB(i - 1), Pow2(s), Pow2(32 - s), x, Down(x, s), LowBits(x, s),
          LowBits(n, s), Dropped(y, s, 0));
    }
  }

  lemma ZeroParts(s: nat)
    ensures LowBits(0, s) == 0 && Down(0, s) == 0 && Up(0, s) == 0
  {
    hide Pow2;
    DivUnique(0, Pow2(s), 0, 0);
  }

  lemma PowBZero()
    ensures PowB(0) == 1
  {
  }

  lemma ShrSum(v: nat, w: nat, b: nat, p: nat, r: nat, x: nat, q: nat, t: nat, u: nat, low: nat)
    requires p * r == BASE && x == p * q + t && p * v + low == w + b * t
    ensures p * (v + b * (q + r * u)) + low == w + b * x + BASE * b * u
  {
    assert p * (v + b * (q + r * u)) == p * v + p * (b * (q + r * u));
    assert p * (b * (q + r * u)) == b * (p * q) + b * (p * r * u) by { Spread(p, b, q, r, u); }
    assert b * (p * q + t) == b * (p * q) + b * t;
    assert b * (BASE * u) == BASE * b * u;
  }

  lemma Spread(p: nat, b: nat, q: nat, r: nat, u: nat)
    ensures p * (b * (q + r * u)) == b * (p * q) + b * (p * r * u)
  {
    assert b * (q + r * u) == b * q + b * (r * u);
    assert p * (b * q + b * (r * u)) == p * (b * q) + p * (b * (r * u));
    assert p * (b * q) == b * (p * q);
    assert p * (b * (r * u)) == b * (p * (r * u));
    assert p * (r * u) == p * r * u;
  }

  lemma ShrLimbsBelow(y: seq<nat>, z: seq<nat>, k: nat, s: nat)
    requires |y| == |z| == WIDTH && s < 32 && AllLimbs(y) && forall j :: 0 <= j < WIDTH ==> z[j] == ShrLimb(y, k, s, j)
    ensures AllLimbs(z)
  {
    hide Pow2, Down, LowBits, Up;
    forall j | 0 <= j < WIDTH
      ensures z[j] < BASE
    {
      var x, n := if j + k < WIDTH then y[j + k] else 0, if j + k + 1 < WIDTH then y[j + k + 1] else 0;
      ShiftParts(x, 32 - s);
      ShiftParts(n, 32 - s);
      Compose(Down(x, s), Pow2(32 - s), LowBits(n, s), Pow2(s));
    }
  }

  lemma ShrValue(y: seq<nat>, z: seq<nat>, k: nat, s: nat)
    requires ShrState(z, y, k, s, WIDTH)
    ensures AllLimbs(z) && Val(z) == Val(y) / Pow2(32 * k + s)
  {
    hide Val, PowB, Pow2, Down, LowBits, Up;
    ShrLimbsBelow(y, z, k, s);
    PowBIsPow2(k);
    Pow2Add(32 * k, s);
    if k < WIDTH {
      ShrSome(y, z, k, s);
    } else {
      ValZeros(z);
      ValBound(y);
      PowBAdd(WIDTH, k - WIDTH);
      OnlyGrows(Modulus(), PowB(k - WIDTH), Pow2(s));
      DivUnique(Val(y), Pow2(32 * k + s), 0, Val(y));
    }
  }

  lemma ShrSome(y: seq<nat>, z: seq<nat>, k: nat, s: nat)
    requires ShrState(z, y, k, s, WIDTH) && k < WIDTH
    ensures Val(z) == Val(y) / (PowB(k) * Pow2(s))
  {
    hide Val, PowB, Pow2, Down, LowBits, Up;
    var i, high, low := WIDTH - k, y[k..], LowBits(y[k], s);
    assert Val(z) == Val(z[..i]) by {
      ValSplit(z, i);
      ValZeros(z[i..]);
    }
    assert Pow2(s) * Val(z) + low == Val(high) by {
      ShrPrefix(high, z, s, i);
      assert high[..i] == high;
    }
    assert Val(y) == Val(y[..k]) + PowB(k) * Val(high) by { ValSplit(y, k); }
    assert low < Pow2(s) by { ShiftParts(y[k], 32 - s); }
    ValBound(y[..k]);
    ShrTotal(Val(y[..k]), PowB(k), Pow2(s), Val(z), low, Val(high));
  }

  lemma OnlyGrows(m: nat, b: nat, p: nat)
    requires b > 0 && p > 0
    ensures m <= m * b * p
  {
    assert m * b >= m;
    assert m * b * p >= m * b;
  }

  lemma ShrTotal(v: nat, b: nat, p: nat, z: nat, low: nat, high: nat)
    requires p > 0 && v < b && low < p && high == p * z + low
    ensures b * p > 0 && (v + b * high) / (b * p) == z
  {
    assert b * (p * z + low) == b * (p * z) + b * low;
    assert b * (p * z) == z * (b * p);
    Compose(v, b, low, p);
    DivUnique(v + b * high, b * p, z, v + b * low);
  }

  // ------------------------------------------------------------ the highest bit

  ghost predicate HasBits(v: nat, n: nat) {
    if v == 0 then n == 0 else n > 0 && Pow2(n - 1) <= v < Pow2(n)
  }

  lemma NoBits()
    ensures HasBits(0, 0)
  {
  }

  /** The highest bit of a limb, found from the top. */
  method TopBit(x: nat) returns (bits: nat)
    requires 0 < x < BASE
    ensures bits < 32 && Pow2(bits) <= x < Pow2(bits + 1)
  {
    hide Pow2;
    Pow2At32();
    bits := 31;
    while bits > 0
      invariant 0 <= bits < 32 && x < Pow2(bits + 1)
    {
      BitTest(x, bits);
      if Down(x, bits) % 2 == 1 { return; }
      bits := bits - 1;
    }
    LowestBit();
  }

  lemma LowestBit()
    ensures Pow2(0) == 1
  {
  }

  lemma BitTest(x: nat, bits: nat)
    requires x < Pow2(bits + 1)
    ensures Down(x, bits) % 2 == 1 <==> x >= Pow2(bits)
  {
    var p := Pow2(bits);
    assert Pow2(bits + 1) == 2 * p;
    hide Pow2;
    if x >= p { DivUnique(x, p, 1, x - p); } else { DivUnique(x, p, 0, x); }
  }

  lemma TopLimb(z: seq<nat>, pos: nat, top: nat)
    requires |z| == WIDTH && pos < WIDTH && AllLimbs(z) && (forall k :: pos < k < WIDTH ==> z[k] == 0)
    requires top < 32 && Pow2(top) <= z[pos] < Pow2(top + 1)
    ensures HasBits(Val(z), 32 * pos + top + 1)
  {
    hide Val, PowB, Pow2;
    assert Val(z) == Val(z[..pos + 1]) by {
      ValSplit(z, pos + 1);
      ValZeros(z[pos + 1..]);
    }
    ValTake(z, pos);
    ValBound(z[..pos]);
    PowBIsPow2(pos);
    Pow2Add(32 * pos, top);
    Pow2Add(32 * pos, top + 1);
    Compose(Val(z[..pos]), PowB(pos), z[pos], Pow2(top + 1));
    Scaled(PowB(pos), Pow2(top), z[pos]);
  }

  lemma Scaled(p: nat, a: nat, b: nat)
    requires a <= b && p > 0
    ensures p * a <= p * b && (a > 0 ==> p * a > 0)
  {
  }

  // ------------------------------------------------------------ division

  /** q holds the quotient bits from bit k up, and r is what is left to divide. */
  ghost predicate Dividing(n: nat, d: nat, q: nat, r: nat, k: nat) {
    q * d + r == n && r < d * Pow2(k) && q % Pow2(k) == 0
  }

  lemma BitsZero(v: nat, n: nat)
    requires HasBits(v, n)
    ensures v == 0 <==> n == 0
  {
  }

  lemma Smaller(n: nat, d: nat, numBits: nat, divBits: nat)
    requires HasBits(n, numBits) && HasBits(d, divBits) && divBits > numBits
    ensures d > 0 && n / d == 0
  {
    hide Pow2;
    if numBits < divBits - 1 { Pow2Grows(numBits, divBits - 1); }
    LowestBit();
    DivUnique(n, d, 0, n);
  }

  lemma Aligned(n: nat, d: nat, numBits: nat, divBits: nat)
    requires HasBits(n, numBits) && HasBits(d, divBits) && 0 < divBits <= numBits <= 256
    ensures var shift := numBits - divBits;
            Dividing(n, d, 0, n, shift + 1) && d * Pow2(shift) % Modulus() == d * Pow2(shift)
  {
    hide Pow2, PowB;
    var shift := numBits - divBits;
    Pow2Add(divBits - 1, shift + 1);
    Times(Pow2(divBits - 1), d, Pow2(shift + 1));
    DivUnique(0, Pow2(shift + 1), 0, 0);
    Pow2Add(divBits, shift);
    Times(d + 1, Pow2(divBits), Pow2(shift));
    assert (d + 1) * Pow2(shift) == d * Pow2(shift) + Pow2(shift);
    PowBIsPow2(WIDTH);
    if numBits < 256 { Pow2Grows(numBits, 256); }
    DivUnique(d * Pow2(shift), Modulus(), 0, d * Pow2(shift));
  }

  lemma Times(a: nat, b: nat, c: nat)
    requires a <= b
    ensures a * c <= b * c
  {
  }

  lemma DivideStep(n: nat, d: nat, q: nat, r: nat, shift: nat, ge: bool)
    requires Dividing(n, d, q, r, shift + 1) && r < Modulus() && ge == (r >= d * Pow2(shift))
    ensures q % Pow2(shift + 1) == 0
    ensures ge ==>
              Dividing(n, d, q + Pow2(shift), r - d * Pow2(shift), shift)
              && (r - d * Pow2(shift)) % Modulus() == r - d * Pow2(shift)
    ensures !ge ==> Dividing(n, d, q, r, shift)
  {
    var p, r' := Pow2(shift), r - d * Pow2(shift);
    assert Pow2(shift + 1) == 2 * p;
    hide Pow2, PowB;
    var m := q / (2 * p);
    assert q == (2 * p) * m;
    assert (2 * p) * m == 2 * m * p;
    assert d * (2 * p) == 2 * (d * p);
    DivUnique(q, p, 2 * m, 0);
    if ge {
      assert (2 * m + 1) * p == 2 * m * p + p;
      DivUnique(q + p, p, 2 * m + 1, 0);
      assert (q + p) * d == q * d + d * p;
      DivUnique(r', Modulus(), 0, r');
    }
  }

  lemma ShiftedBack(d: nat, shift: nat)
    ensures shift > 0 ==> d * Pow2(shift) / Pow2(1) == d * Pow2(shift - 1)
  {
    if shift > 0 {
      assert Pow2(1) == 2 && Pow2(shift) == 2 * Pow2(shift - 1);
      hide Pow2;
      var p := Pow2(shift - 1);
      assert d * (2 * p) == d * p * 2;
      DivUnique(d * (2 * p), 2, d * p, 0);
    }
  }

  lemma Divided(n: nat, d: nat, q: nat, r: nat)
    requires d > 0 && Dividing(n, d, q, r, 0)
    ensures q == n / d
  {
    assert d * Pow2(0) == d;
    DivUnique(n, d, q, r);
  }

  /** Setting a bit below all the others is adding it. */
  lemma SetBitLimb(z: seq<nat>, w: nat, bit: nat)
    requires |z| == WIDTH && AllLimbs(z) && w < WIDTH && bit < 32 && Val(z) % Pow2(32 * w + bit + 1) == 0
    ensures BitOr(z[w], Pow2(bit)) < BASE
    ensures Val(z[w := BitOr(z[w], Pow2(bit))]) == Val(z) + Pow2(32 * w + bit)
  {
    hide Val, PowB, Pow2, BitOr, Down, LowBits, Up;
    LimbDivides(z, w, bit);
    var p, q := Pow2(bit), Quotient(z[w], Pow2(bit + 1));
    PowerUp(bit);
    OrCommutes(z[w], p);
    OrDisjoint(p, z[w], bit + 1, q);
    BelowBase(z[w], bit, q);
    ValUpdate(z, w, z[w] + p);
    PowBIsPow2(w);
    Pow2Add(32 * w, bit);
    assert PowB(w) * (z[w] + p) == PowB(w) * z[w] + PowB(w) * p;
  }

  lemma PowerUp(k: nat)
    ensures Pow2(k) < Pow2(k + 1) == 2 * Pow2(k)
  {
  }

  lemma BelowBase(x: nat, bit: nat, q: nat)
    requires bit < 32 && x < BASE && x == Pow2(bit + 1) * q
    ensures x + Pow2(bit) < BASE
  {
    hide Pow2;
    PowerUp(bit);
    Pow2Add(bit + 1, 31 - bit);
    Pow2At32();
    RoomBelow(x, Pow2(bit), Pow2(bit + 1), q, Pow2(31 - bit));
  }

  lemma RoomBelow(x: nat, h: nat, p: nat, q: nat, r: nat)
    requires h < p && p * r == BASE && x == p * q < BASE
    ensures x + h < BASE
  {
    Apart(r - q, p);
    assert p * (r - q) == p * r - p * q;
  }

  /** A number divisible by 2^(32 w + bit + 1) has a limb w divisible by 2^(bit + 1). */
  lemma LimbDivides(z: seq<nat>, w: nat, bit: nat)
    requires |z| == WIDTH && AllLimbs(z) && w < WIDTH && bit < 32 && Val(z) % Pow2(32 * w + bit + 1) == 0
    ensures z[w] == Pow2(bit + 1) * Quotient(z[w], Pow2(bit + 1))
  {
    hide Val, PowB, Pow2;
    var P, p, t := PowB(w), Pow2(bit + 1), Val(z[w + 1..]);
    var k := Val(z) / Pow2(32 * w + bit + 1);
    PowBIsPow2(w);
    Pow2Add(32 * w, bit + 1);
    ValSplit(z, w);
    ValBound(z[..w]);
    assert z[w..][0] == z[w] && z[w..][1..] == z[w + 1..];
    ValHead(z[w..]);
    assert Val(z) == P * p * k;
    MultipleAbove(Val(z[..w]), P, p, k, Val(z[w..]));
    Pow2Add(bit + 1, 31 - bit);
    Pow2At32();
    MultipleBelow(z[w], p, Pow2(31 - bit), t, k);
  }

  lemma ValHead(s: seq<nat>)
    requires s != []
    ensures Val(s) == s[0] + BASE * Val(s[1..])
  {
  }

  lemma MultipleAbove(v: nat, P: nat, p: nat, k: nat, h: nat)
    requires P > 0 && v < P && v + P * h == P * p * k
    ensures h == p * k
  {
    assert P * p * k == P * (p * k);
    assert P * (p * k - h) == v;
    Apart(p * k - h, P);
  }

  lemma MultipleBelow(x: nat, p: nat, r: nat, t: nat, k: nat)
    requires p > 0 && p * r == BASE && x + BASE * t == p * k
    ensures x == p * Quotient(x, p)
  {
    assert p * r * t == p * (r * t);
    assert x == p * (k - r * t);
    assert k - r * t >= 0 by { Apart(k - r * t, p); }
    DivUnique(x, p, k - r * t, 0);
  }
}
