/** How large a partial Merkle tree is on the wire. The format is said to guarantee at most 2N - 1 flag bits and at
    most 10 + ceil(32.25 N) bytes for a tree with N hashes. Neither holds of all trees: a node with a single child
    costs a bit and brings no hash. Both are counted exactly here, and hold exactly under conditions on the number of
    transactions and the mask. */
module MerkleSize {

  import opened MerkleBlock
  import opened Powers

  /** The number of hashes stored for a node, found without hashing. */
  function HashCount(vMatch: seq<bool>, height: nat, pos: nat): (k: nat)
    requires pos < Width(|vMatch|, height)
    ensures k >= 1
  {
    if height == 0 || !AnyMatch(vMatch, First(height, pos), Last(|vMatch|, height, pos)) then 1 else
      Children(|vMatch|, height, pos);
      HashCount(vMatch, height - 1, pos * 2)
          + if HasRight(|vMatch|, height, pos) then HashCount(vMatch, height - 1, pos * 2 + 1) else 0
  }

  lemma {:induction false} HashCountIs(h: PairHash, vTxid: seq<Hash>, vMatch: seq<bool>, height: nat, pos: nat)
    requires |vTxid| == |vMatch| && pos < Width(|vTxid|, height)
    ensures |BuildHashes(h, height, pos, vTxid, vMatch)| == HashCount(vMatch, height, pos)
  {
    hide Width, AnyMatch, First;
    if height > 0 && AnyMatch(vMatch, First(height, pos), Last(|vMatch|, height, pos)) {
      Children(|vTxid|, height, pos);
      HashCountIs(h, vTxid, vMatch, height - 1, pos * 2);
      if HasRight(|vTxid|, height, pos) { HashCountIs(h, vTxid, vMatch, height - 1, pos * 2 + 1); }
    }
  }

  /** The last node at height k has a single child, and a match below it. */
  predicate Lone(vMatch: seq<bool>, k: nat)
    requires k > 0
  {
    Width(|vMatch|, k - 1) % 2 == 1 && AnyMatch(vMatch, LastFirst(|vMatch|, k), |vMatch|)
  }

  /** The first leaf below the last node at a height. */
  function LastFirst(n: nat, k: nat): nat {
    if Width(n, k) == 0 then 0 else First(k, Width(n, k) - 1)
  }

  /** How many heights up to k have such a node. */
  function LoneCount(vMatch: seq<bool>, k: nat): nat {
    if k == 0 then 0 else LoneCount(vMatch, k - 1) + if Lone(vMatch, k) then 1 else 0
  }

  /** The widths of neighbouring heights. */
  lemma HalfWidth(n: nat, k: nat)
    requires k > 0
    ensures Width(n, k) == (Width(n, k - 1) + 1) / 2
  {
    var w, w' := Width(n, k), Width(n, k - 1);
    WidthIff(n, k, w);
    WidthIff(n, k - 1, 2 * w);
    Halves(k, w);
    if w > 0 { Children(n, k, w - 1); }
    hide Width;
    if w > 0 {
      assert 2 * (w - 1) < w';
    }
    assert w' <= 2 * w;
  }

  /** The last node at a height is a left child just if it is the single child of the last node above. */
  lemma LastNode(n: nat, k: nat)
    requires k > 0 && n > 0
    ensures Width(n, k) > 0 && Width(n, k - 1) > 0
    ensures HasRight(n, k, Width(n, k) - 1) <==> Width(n, k - 1) % 2 == 0
    ensures Width(n, k - 1) - 1 == (Width(n, k) - 1) * 2 + if HasRight(n, k, Width(n, k) - 1) then 1 else 0
  {
    WidthIff(n, k, 0);
    WidthIff(n, k - 1, 0);
    HalfWidth(n, k);
  }

  lemma LastBelow(n: nat, k: nat)
    requires n > 0
    ensures Width(n, k) > 0 && Last(n, k, Width(n, k) - 1) == n && LastFirst(n, k) == First(k, Width(n, k) - 1)
  {
    WidthIff(n, k, 0);
    WidthIff(n, k, Width(n, k));
  }

  /** Without a match below the last node there is none below the last nodes under it. */
  lemma {:induction false} NoneLone(vMatch: seq<bool>, k: nat)
    requires |vMatch| > 0 && !AnyMatch(vMatch, LastFirst(|vMatch|, k), |vMatch|)
    ensures LoneCount(vMatch, k) == 0
  {
    if k > 0 {
      hide Width;
      var n := |vMatch|;
      LastNode(n, k);
      LastBelow(n, k);
      LastBelow(n, k - 1);
      LowerFirst(n, k);
      NoneLone(vMatch, k - 1);
    }
  }

  lemma LowerFirst(n: nat, k: nat)
    requires k > 0 && n > 0
    ensures LastFirst(n, k) <= LastFirst(n, k - 1)
  {
    LastNode(n, k);
    Halves(k, Width(n, k) - 1);
  }

  /** Every node but a lone one pays one bit for each of its hashes and one for each joint, so a node with k hashes
      has 2k - 1 bits and one more for every lone node. */
  lemma {:induction false} BitCount(vMatch: seq<bool>, height: nat, pos: nat)
    requires pos < Width(|vMatch|, height)
    ensures |BuildBits(height, pos, vMatch)| + 1 ==
            2 * HashCount(vMatch, height, pos) + if pos + 1 == Width(|vMatch|, height) then LoneCount(vMatch, height)
                else 0
  {
    hide Width, AnyMatch, First, LastFirst;
    var n := |vMatch|;
    WidthPositive(n, height, pos);
    LastBelow(n, height);
    if height == 0 {
    } else if !AnyMatch(vMatch, First(height, pos), Last(n, height, pos)) {
      if pos + 1 == Width(n, height) { NoneLone(vMatch, height); }
    } else {
      Children(n, height, pos);
      LastNode(n, height);
      Inner(n, height, pos);
      BitCount(vMatch, height - 1, pos * 2);
      if HasRight(n, height, pos) { BitCount(vMatch, height - 1, pos * 2 + 1); }
    }
  }

  lemma WidthPositive(n: nat, height: nat, pos: nat)
    requires pos < Width(n, height)
    ensures n > 0
  {
    WidthIff(n, height, pos);
  }

  /** A node that is not the last has both children, and neither is the last. */
  lemma Inner(n: nat, height: nat, pos: nat)
    requires height > 0 && pos < Width(n, height)
    ensures pos + 1 < Width(n, height) ==> HasRight(n, height, pos) && pos * 2 + 2 < Width(n, height - 1)
  {
    HalfWidth(n, height);
  }

  lemma BuiltCounts(h: PairHash, vTxid: seq<Hash>, vMatch: seq<bool>)
    requires |vTxid| == |vMatch| > 0
    ensures var t := Built(h, vTxid, vMatch); var H := TreeHeight(|vMatch|, 0);
            && Width(|vMatch|, H) == 1 && |t.hashes| == HashCount(vMatch, H, 0)
            && |t.bits| + 1 == 2 * |t.hashes| + LoneCount(vMatch, H)
  {
    var H := TreeHeight(|vMatch|, 0);
    TreeHeightTop(|vMatch|, 0);
    HashCountIs(h, vTxid, vMatch, H, 0);
    BitCount(vMatch, H, 0);
  }

  // ------------------------------------------------------------ the flag bits

  /** At most 2N - 1 flag bits are stored exactly if no match lies below a last node with a single child. */
  lemma BitsIff(h: PairHash, vTxid: seq<Hash>, vMatch: seq<bool>)
    requires |vTxid| == |vMatch| > 0
    ensures var t := Built(h, vTxid, vMatch);
            |t.bits| <= 2 * |t.hashes| - 1 <==> forall k :: 1 <= k <= TreeHeight(|vMatch|, 0) ==> !Lone(vMatch, k)
  {
    BuiltCounts(h, vTxid, vMatch);
    NoLones(vMatch, TreeHeight(|vMatch|, 0));
  }

  lemma {:induction false} NoLones(vMatch: seq<bool>, n: nat)
    ensures LoneCount(vMatch, n) == 0 <==> forall k :: 1 <= k <= n ==> !Lone(vMatch, k)
    ensures LoneCount(vMatch, n) <= n
  {
    if n > 0 { NoLones(vMatch, n - 1); }
  }

  /** Always at most one bit more for every height. */
  lemma BitsBound(h: PairHash, vTxid: seq<Hash>, vMatch: seq<bool>)
    requires |vTxid| == |vMatch| > 0
    ensures var t := Built(h, vTxid, vMatch); |t.bits| <= 2 * |t.hashes| - 1 + TreeHeight(|vMatch|, 0)
  {
    BuiltCounts(h, vTxid, vMatch);
    NoLones(vMatch, TreeHeight(|vMatch|, 0));
  }

  /** Five transactions with only the last one matched: five bits for two hashes. */
  lemma LastOfFive(h: PairHash, vTxid: seq<Hash>, vMatch: seq<bool>)
    requires |vTxid| == 5 && vMatch == [false, false, false, false, true]
    ensures var t := Built(h, vTxid, vMatch); |t.hashes| == 2 && |t.bits| == 5
  {
    hide Width, First, AnyMatch, Lone, Built, HashCount;
    BuiltCounts(h, vTxid, vMatch);
    WidthsOfFive();
    HeightWhere(5, 0, 3);
    LoneWhere(vMatch, 1);
    LoneWhere(vMatch, 2);
    LoneWhere(vMatch, 3);
    HashesOfFive(vMatch);
    assert LoneCount(vMatch, 1) == 1;
  }

  lemma WidthsOfFive()
    ensures Width(5, 0) == 5 && Width(5, 1) == 3 && Width(5, 2) == 2 && Width(5, 3) == 1
  {
    hide Width;
    WidthZero(5);
    HalfWidth(5, 1);
    HalfWidth(5, 2);
    HalfWidth(5, 3);
  }

  lemma HashesOfFive(vMatch: seq<bool>)
    requires vMatch == [false, false, false, false, true] && Width(5, 3) == 1
    ensures HashCount(vMatch, 3, 0) == 2
  {
    hide Width;
    WidthsOfFive();
    assert vMatch[4];
    assert Pow2(1) == 2 && Pow2(2) == 4 && Pow2(3) == 8;
    assert HashCount(vMatch, 1, 2) == 1 && HashCount(vMatch, 2, 0) == 1;
    assert HashCount(vMatch, 2, 1) == 1;
  }

  // ------------------------------------------------------------ the bytes

  /** The length of a compact size. */
  function CompactSizeLength(n: nat): nat {
    if n < 253 then 1 else if n <= 0xffff then 3 else if n <= 0xffff_ffff then 5 else 9
  }

  function FlagBytes(t: Tree): nat { (|t.bits| + 7) / 8 }

  /** The bytes that SerializationOp writes: the number of transactions, the hashes, and the packed flag bits. */
  function EncodedSize(t: Tree): nat {
    4 + CompactSizeLength(|t.hashes|) + 32 * |t.hashes| + CompactSizeLength(FlagBytes(t)) + FlagBytes(t)
  }

  /** 10 + ceil(32.25 n) */
  function Guarantee(n: nat): nat { 10 + 32 * n + (n + 3) / 4 }

  /** For n hashes and this many lone nodes: both lengths take a byte; or no flag byte is added; or the flag bytes
      still take a length of one byte and at most two are added. */
  predicate Slim(n: nat, lone: nat) {
    n <= 0xffff && (n <= 252 || (2 * n + 6) % 8 + lone < 8 || (2 * n + lone < 2018 && (2 * n + 6) % 8 + lone < 24))
  }

  /** The guarantee holds exactly under that condition on the counts, for every number of transactions in 32 bits. */
  lemma SizeIff(h: PairHash, vTxid: seq<Hash>, vMatch: seq<bool>)
    requires 0 < |vTxid| == |vMatch| <= 0xffff_ffff
    ensures Width(|vMatch|, TreeHeight(|vMatch|, 0)) == 1
    ensures var t := Built(h, vTxid, vMatch); var H := TreeHeight(|vMatch|, 0);
            EncodedSize(t) <= Guarantee(|t.hashes|) <==> Slim(HashCount(vMatch, H, 0), LoneCount(vMatch, H))
  {
    hide Width, TreeHeight, LoneCount, HashCount, BuildHashes, BuildBits, Guarantee, Slim, CompactSizeLength;
    var t, H := Built(h, vTxid, vMatch), TreeHeight(|vMatch|, 0);
    BuiltCounts(h, vTxid, vMatch);
    BuiltBound(h, vTxid, vMatch);
    NoLones(vMatch, H);
    Pow2At32();
    HeightAtMost(|vMatch|, 0, 32);
    SizeOf(|t.hashes|, LoneCount(vMatch, H), |t.bits|);
  }

  lemma SizeOf(n: nat, lone: nat, bits: nat)
    requires 0 < n <= 0xffff_ffff && lone <= 32 && bits + 1 == 2 * n + lone
    ensures var bytes := (bits + 7) / 8;
            4 + CompactSizeLength(n) + 32 * n + CompactSizeLength(bytes) + bytes <= Guarantee(n) <==> Slim(n, lone)
  {
    var bytes := (bits + 7) / 8;
    assert bytes == (2 * n + 6 + lone) / 8 && (2 * n + 6) / 8 == (n + 3) / 4;
  }

  lemma {:induction false} HeightAtMost(n: nat, from: nat, k: nat)
    requires n <= Pow2(k) && from <= k
    ensures TreeHeight(n, from) <= k
    decreases k - from
  {
    if Width(n, from) > 1 {
      WidthIff(n, from, 1);
      HeightAtMost(n, from + 1, k);
    }
  }

  lemma {:induction false} AllMatchedCount(vMatch: seq<bool>, height: nat, pos: nat)
    requires pos < Width(|vMatch|, height) && forall i :: 0 <= i < |vMatch| ==> vMatch[i]
    ensures First(height, pos) + HashCount(vMatch, height, pos) == Last(|vMatch|, height, pos)
  {
    hide Width;
    var n := |vMatch|;
    WidthIff(n, height, pos);
    MulLe(pos, pos, Pow2(height));
    if height > 0 {
      assert vMatch[First(height, pos)];
      Children(n, height, pos);
      Ranges(n, height, pos);
      AllMatchedCount(vMatch, height - 1, pos * 2);
      if HasRight(n, height, pos) { AllMatchedCount(vMatch, height - 1, pos * 2 + 1); }
    }
  }

  /** 1012 transactions, all matched: one byte more than the guarantee. */
  lemma TooLarge(h: PairHash, vTxid: seq<Hash>, vMatch: seq<bool>)
    requires |vTxid| == |vMatch| == 1012 && forall i :: 0 <= i < 1012 ==> vMatch[i]
    ensures var t := Built(h, vTxid, vMatch); |t.hashes| == 1012 && EncodedSize(t) == 32648 == Guarantee(1012) + 1
  {
    var H := TreeHeight(1012, 0);
    BuiltCounts(h, vTxid, vMatch);
    Whole(1012);
    AllMatchedCount(vMatch, H, 0);
    LonesOf1012(vMatch);
  }

  lemma LonesOf1012(vMatch: seq<bool>)
    requires |vMatch| == 1012 && forall i :: 0 <= i < 1012 ==> vMatch[i]
    ensures TreeHeight(1012, 0) == 10 && LoneCount(vMatch, 10) == 2
  {
    hide Width, TreeHeight, Lone;
    WidthsOf1012();
    HeightWhere(1012, 0, 10);
    forall k | 1 <= k <= 10 ensures Lone(vMatch, k) <==> k == 3 || k == 4 { LoneWhere(vMatch, k); }
    assert LoneCount(vMatch, 1) == 0;
    assert LoneCount(vMatch, 2) == 0;
    assert LoneCount(vMatch, 3) == 1;
    assert LoneCount(vMatch, 4) == 2;
    assert LoneCount(vMatch, 6) == 2;
    assert LoneCount(vMatch, 8) == 2;
  }

  lemma WidthsOf1012()
    ensures Width(1012, 0) == 1012 && Width(1012, 1) == 506 && Width(1012, 2) == 253 && Width(1012, 3) == 127
    ensures Width(1012, 4) == 64 && Width(1012, 5) == 32 && Width(1012, 6) == 16 && Width(1012, 7) == 8
    ensures Width(1012, 8) == 4 && Width(1012, 9) == 2 && Width(1012, 10) == 1
  {
    hide Width;
    WidthZero(1012);
    HalfWidth(1012, 1);
    HalfWidth(1012, 2);
    HalfWidth(1012, 3);
    HalfWidth(1012, 4);
    HalfWidth(1012, 5);
    HalfWidth(1012, 6);
    HalfWidth(1012, 7);
    HalfWidth(1012, 8);
    HalfWidth(1012, 9);
    HalfWidth(1012, 10);
  }

  lemma WidthZero(n: nat)
    ensures Width(n, 0) == n
  {
  }

  lemma LoneWhere(vMatch: seq<bool>, k: nat)
    requires k > 0 && |vMatch| > 0 && vMatch[|vMatch| - 1]
    ensures Lone(vMatch, k) <==> Width(|vMatch|, k - 1) % 2 == 1
  {
    LastBelow(|vMatch|, k);
    WidthIff(|vMatch|, k, Width(|vMatch|, k) - 1);
  }

  lemma {:induction false} HeightWhere(n: nat, from: nat, k: nat)
    requires from <= k && Width(n, k) <= 1 && forall i :: from <= i < k ==> Width(n, i) > 1
    ensures TreeHeight(n, from) == k
    decreases k - from
  {
    hide Width;
    if from < k {
      WidthIff(n, from, 1);
      HeightWhere(n, from + 1, k);
    }
  }
}
