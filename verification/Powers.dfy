/** Powers of two, used wherever the sources shift. */
module Powers {

  function Pow2(k: nat): (p: nat)
    ensures p > 0
  {
    if k == 0 then 1 else 2 * Pow2(k - 1)
  }

  lemma {:induction false} Pow2Grows(a: nat, b: nat)
    requires a < b
    ensures Pow2(a) < Pow2(b)
  {
    if a < b - 1 { Pow2Grows(a, b - 1); }
  }

  lemma {:induction false} Pow2Add(a: nat, b: nat)
    ensures Pow2(a + b) == Pow2(a) * Pow2(b)
  {
    if a > 0 {
      Pow2Add(a - 1, b);
      Associate(2, Pow2(a - 1), Pow2(b));
    }
  }

  lemma Associate(a: int, b: int, c: int)
    ensures a * b * c == a * (b * c)
  {
  }

  lemma Pow2At32()
    ensures Pow2(32) == 0x1_0000_0000
  {
    assert Pow2(8) == 256;
    Pow2Add(8, 8);
    Pow2Add(16, 16);
  }

  lemma DivUnique(n: int, p: nat, q: int, r: nat)
    requires p > 0 && n == q * p + r && r < p
    ensures n / p == q && n % p == r
  {
    var q', r' := n / p, n % p;
    assert n == q' * p + r';
    assert (q - q') * p == r' - r;
    Apart(q - q', p);
  }

  lemma Apart(d: int, p: int)
    requires p > 0
    ensures d >= 1 ==> d * p >= p
    ensures d <= -1 ==> d * p <= -p
  {
  }

  lemma Positive(d: int, p: int)
    requires p > 0 && d * p > 0
    ensures d > 0
  {
  }

  /** Adding an upper multiple: v < p and the rest below b make a number below p * b. */
  lemma Compose(v: nat, p: nat, x: nat, b: nat)
    requires v < p && x < b
    ensures v + p * x < p * b
  {
    assert p * x <= p * (b - 1);
    assert p * (b - 1) == p * b - p;
  }

  function Quotient(x: nat, p: nat): (q: nat)
    requires p > 0
  {
    x / p
  }

  function Remainder(x: nat, p: nat): (r: nat)
    requires p > 0
  {
    x % p
  }

  lemma QuotientRemainder(x: nat, p: nat)
    requires p > 0
    ensures x == p * Quotient(x, p) + Remainder(x, p) && Remainder(x, p) < p
  {
  }
}
