/** Numbers as sequences of 32-bit limbs, least significant first. */
module Limbs {

  import opened Powers

  const BASE: nat := 0x1_0000_0000

  function Val(s: seq<nat>): nat {
    if s == [] then 0 else s[0] + BASE * Val(s[1..])
  }

  function PowB(n: nat): (p: nat)
    ensures p > 0
  {
    if n == 0 then 1 else BASE * PowB(n - 1)
  }

  lemma PowBStep(n: nat)
    ensures PowB(n + 1) == BASE * PowB(n)
  {
  }

  ghost predicate AllLimbs(s: seq<nat>) {
    forall i :: 0 <= i < |s| ==> s[i] < BASE
  }

  lemma {:induction false} ValBound(s: seq<nat>)
    requires AllLimbs(s)
    ensures Val(s) < PowB(|s|)
  {
    if s != [] {
      ValBound(s[1..]);
      assert BASE * Val(s[1..]) <= BASE * (PowB(|s| - 1) - 1);
    }
  }

  lemma {:induction false} ValAppend(s: seq<nat>, x: nat)
    ensures Val(s + [x]) == Val(s) + PowB(|s|) * x
  {
    if s == [] {
      assert s + [x] == [x] && [x][1..] == [];
    } else {
      assert (s + [x])[1..] == s[1..] + [x];
      ValAppend(s[1..], x);
      AppendStep(s[0], Val(s[1..]), PowB(|s| - 1), x);
    }
  }

  lemma AppendStep(d: nat, v: nat, p: nat, x: nat)
    ensures d + BASE * (v + p * x) == d + BASE * v + BASE * p * x
  {
    assert BASE * (v + p * x) == BASE * v + BASE * (p * x);
  }

  /** The first n + 1 limbs are the first n and one more. */
  lemma ValTake(s: seq<nat>, n: nat)
    requires n < |s|
    ensures Val(s[..n + 1]) == Val(s[..n]) + PowB(n) * s[n]
  {
    assert s[..n + 1] == s[..n] + [s[n]];
    ValAppend(s[..n], s[n]);
  }

  lemma {:induction false} ValConcat(s: seq<nat>, t: seq<nat>)
    ensures Val(s + t) == Val(s) + PowB(|s|) * Val(t)
  {
    if s == [] {
      assert s + t == t;
    } else {
      assert (s + t)[1..] == s[1..] + t;
      ValConcat(s[1..], t);
      AppendStep(s[0], Val(s[1..]), PowB(|s| - 1), Val(t));
    }
  }

  lemma ValSplit(s: seq<nat>, n: nat)
    requires n <= |s|
    ensures Val(s) == Val(s[..n]) + PowB(n) * Val(s[n..])
  {
    assert s == s[..n] + s[n..];
    ValConcat(s[..n], s[n..]);
  }

  lemma {:induction false} ValZeros(s: seq<nat>)
    requires forall i :: 0 <= i < |s| ==> s[i] == 0
    ensures Val(s) == 0
  {
    if s != [] { ValZeros(s[1..]); }
  }

  lemma {:induction false} PowBIsPow2(n: nat)
    ensures PowB(n) == Pow2(32 * n)
  {
    if n > 0 {
      PowBIsPow2(n - 1);
      Pow2At32();
      Pow2Add(32, 32 * (n - 1));
    }
  }

  lemma {:induction false} PowBAdd(a: nat, b: nat)
    ensures PowB(a + b) == PowB(a) * PowB(b)
  {
    PowBIsPow2(a + b);
    PowBIsPow2(a);
    PowBIsPow2(b);
    Pow2Add(32 * a, 32 * b);
  }

  // ------------------------------------------------------------ arithmetic steps

  lemma ValUpdate(s: seq<nat>, k: nat, x: nat)
    requires k < |s|
    ensures Val(s[k := x]) + PowB(k) * s[k] == Val(s) + PowB(k) * x
  {
    var t := s[k := x];
    ValSplit(s, k + 1);
    ValSplit(t, k + 1);
    assert s[k + 1..] == t[k + 1..];
    ValTake(s, k);
    ValTake(t, k);
    assert s[..k] == t[..k];
  }

  /** Multiplication under a name, so that a proof can leave it uninterpreted. */
  function Mul(a: nat, b: nat): nat { a * b }

  // ------------------------------------------------------------ bitwise or

  function BitOr(x: nat, y: nat): nat
    decreases x + y
  {
    if x == 0 then y else if y == 0 then x else (if x % 2 == 1 || y % 2 == 1 then 1 else 0) + 2 * BitOr(x / 2, y / 2)
  }

  lemma {:induction false} OrCommutes(x: nat, y: nat)
    ensures BitOr(x, y) == BitOr(y, x)
    decreases x + y
  {
    if x != 0 && y != 0 { OrCommutes(x / 2, y / 2); }
  }

  /** Where the bits do not overlap, or is addition. */
  lemma {:induction false} OrDisjoint(x: nat, y: nat, s: nat, q: nat)
    requires x < Pow2(s) && y == Pow2(s) * q
    ensures BitOr(x, y) == x + y
  {
    if s > 0 {
      var y' := Pow2(s - 1) * q;
      Associate(2, Pow2(s - 1), q);
      OrHalves(x, y, y');
      OrDisjoint(x / 2, y', s - 1, q);
    } else {
      assert x == 0;
    }
  }

  lemma OrHalves(x: nat, y: nat, y': nat)
    requires y == 2 * y'
    ensures BitOr(x, y) == x % 2 + 2 * BitOr(x / 2, y')
  {
    assert y / 2 == y' && y % 2 == 0;
    if x != 0 && y == 0 { assert BitOr(x / 2, y') == x / 2; }
    if x == 0 { assert BitOr(x, y) == y; }
  }

  // ------------------------------------------------------------ shifts of one limb

  /** x >> s */
  function Down(x: nat, s: nat): nat { Quotient(x, Pow2(s)) }

  /** The s low bits of x. */
  function LowBits(x: nat, s: nat): nat { Remainder(x, Pow2(s)) }

  /** x << s in 32 bits */
  function Up(x: nat, s: nat): nat { x * Pow2(s) % BASE }

  /** A shift left by s keeps the 32 - s low bits of a limb and drops the s high bits. */
  lemma ShiftParts(x: nat, s: nat)
    requires x < BASE && s <= 32
    ensures Down(x, 32 - s) < Pow2(s) && Up(x, s) == Pow2(s) * LowBits(x, 32 - s) < BASE
    ensures x * Pow2(s) == Up(x, s) + BASE * Down(x, 32 - s)
    ensures x == Pow2(32 - s) * Down(x, 32 - s) + LowBits(x, 32 - s) && LowBits(x, 32 - s) < Pow2(32 - s)
    ensures Pow2(s) * Pow2(32 - s) == BASE
  {
    hide Pow2;
    Pow2At32();
    Pow2Add(s, 32 - s);
    ShiftPartsOf(x, Pow2(s), Pow2(32 - s));
  }

  lemma ShiftPartsOf(x: nat, p: nat, r: nat)
    requires p > 0 && r > 0 && p * r == BASE && x < BASE
    ensures Quotient(x, r) < p && x * p % BASE == p * Remainder(x, r) < BASE
    ensures x * p == p * Remainder(x, r) + BASE * Quotient(x, r)
    ensures x == r * Quotient(x, r) + Remainder(x, r) && Remainder(x, r) < r
  {
    var q, t := x / r, x % r;
    assert x == q * r + t;
    assert x * p == q * r * p + t * p;
    assert q * r * p == q * (p * r);
    assert t * p < r * p by { assert (r - t) * p > 0; }
    DivUnique(x * p, BASE, q, p * t);
    assert (p - q) * r == p * r - q * r;
    Positive(p - q, r);
  }
}
