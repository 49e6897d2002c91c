/** Single bits of a byte. */
module ByteBits {

  function Mask(k: nat): bv8
    requires k < 8
  {
    (1 as bv8) << k
  }

  predicate Bit(b: bv8, k: nat)
    requires k < 8
  {
    b & Mask(k) != 0
  }

  lemma MasksApart(j: nat, k: nat)
    requires j < 8 && k < 8
    ensures Mask(k) != 0 && (j != k ==> Mask(j) & Mask(k) == 0)
  {
    assert j == 0 || j == 1 || j == 2 || j == 3 || j == 4 || j == 5 || j == 6 || j == 7;
    assert k == 0 || k == 1 || k == 2 || k == 3 || k == 4 || k == 5 || k == 6 || k == 7;
  }

  lemma OrApart(b: bv8, m: bv8, m': bv8)
    ensures m & m' == 0 ==> (b | m) & m' == b & m'
    ensures (b | m) & m == m
  {
  }

  /** Setting one bit of a byte. */
  lemma SetBit(b: bv8, k: nat, j: nat)
    requires j < 8 && k < 8
    ensures Bit(b | Mask(k), j) == (Bit(b, j) || j == k)
  {
    MasksApart(k, j);
    OrApart(b, Mask(k), Mask(j));
  }

  lemma AndApart(b: bv8, m: bv8, m': bv8)
    ensures m & m' == 0 ==> b & !m & m' == b & m'
    ensures b & !m & m == 0
  {
  }

  /** Clearing one bit of a byte. */
  lemma ClearBit(b: bv8, k: nat, j: nat)
    requires j < 8 && k < 8
    ensures Bit(b & !Mask(k), j) == (Bit(b, j) && j != k)
  {
    MasksApart(k, j);
    AndApart(b, Mask(k), Mask(j));
  }

  lemma AllSet(k: nat)
    requires k < 8
    ensures Bit(0xFF, k)
  {
    MasksApart(k, k);
    FullMask(Mask(k));
  }

  lemma FullMask(m: bv8)
    ensures 0xFF & m == m
  {
  }
}
