/** The Merkle root of a block level by level: neighbours are hashed in order, and the last one of an
    odd level with itself. The tree of a partial Merkle tree has that root. */
module MerkleLevels {

  import opened MerkleBlock
  import opened MerkleSize
  import opened Powers

  /** The next level up. */
  function Paired(h: PairHash, level: seq<Hash>): (up: seq<Hash>)
    ensures |up| == (|level| + 1) / 2
  {
    seq((|level| + 1) / 2, i requires 0 <= i < (|level| + 1) / 2 =>
      h(level[2 * i], if 2 * i + 1 < |level| then level[2 * i + 1] else level[2 * i]))
  }

  function RootByLevels(h: PairHash, level: seq<Hash>): Hash
    requires |level| > 0
    decreases |level|
  {
    if |level| == 1 then level[0] else RootByLevels(h, Paired(h, level))
  }

  /** The level above has the widths of the tree one height up. */
  lemma WidthUp(n: nat, height: nat, pos: nat)
    ensures pos < Width((n + 1) / 2, height) <==> pos < Width(n, height + 1)
  {
    hide Width;
    WidthIff((n + 1) / 2, height, pos);
    WidthIff(n, height + 1, pos);
    Halves(height + 1, pos);
  }

  lemma SameWidth(n: nat, height: nat)
    ensures Width((n + 1) / 2, height) == Width(n, height + 1)
  {
    hide Width;
    WidthUp(n, height, Width((n + 1) / 2, height));
    WidthUp(n, height, Width(n, height + 1));
  }

  /** A node of the tree is the node one height down of the tree over the level above the leaves. */
  lemma {:induction false} LevelUp(h: PairHash, vTxid: seq<Hash>, height: nat, pos: nat)
    requires pos < Width(|vTxid|, height + 1)
    ensures pos < Width(|Paired(h, vTxid)|, height)
    ensures CalcHash(h, height + 1, pos, vTxid) == CalcHash(h, height, pos, Paired(h, vTxid))
    decreases height
  {
    hide Width;
    var n := |vTxid|;
    WidthUp(n, height, pos);
    Children(n, height + 1, pos);
    if height == 0 {
      Leaves(n, 2 * pos);
      Leaves(n, 2 * pos + 1);
      Leaves(|Paired(h, vTxid)|, pos);
    } else {
      Children(|Paired(h, vTxid)|, height, pos);
      WidthUp(n, height - 1, 2 * pos + 1);
      LevelUp(h, vTxid, height - 1, 2 * pos);
      if HasRight(n, height + 1, pos) { LevelUp(h, vTxid, height - 1, 2 * pos + 1); }
    }
  }

  lemma Leaves(n: nat, pos: nat)
    ensures pos < Width(n, 0) <==> pos < n
  {
    WidthIff(n, 0, pos);
  }

  lemma {:induction false} HeightUp(n: nat, from: nat)
    ensures TreeHeight(n, from + 1) == TreeHeight((n + 1) / 2, from) + 1
    decreases if n > Pow2(from + 1) then n - Pow2(from + 1) else 0
  {
    hide Width;
    SameWidth(n, from);
    if Width(n, from + 1) > 1 {
      WidthIff(n, from + 1, 1);
      HeightUp(n, from + 1);
    }
  }

  /** The root of the tree is the root by levels. */
  lemma {:induction false} RootIsByLevels(h: PairHash, vTxid: seq<Hash>)
    requires |vTxid| > 0
    ensures MerkleRoot(h, vTxid) == RootByLevels(h, vTxid)
    decreases |vTxid|
  {
    hide Width, CalcHash;
    var n := |vTxid|;
    Leaves(n, 0);
    Leaves(n, 1);
    TreeHeightTop(n, 0);
    if n == 1 {
      OneLeaf(h, vTxid);
    } else {
      HeightUp(n, 0);
      LevelUp(h, vTxid, TreeHeight((n + 1) / 2, 0), 0);
      RootIsByLevels(h, Paired(h, vTxid));
    }
  }

  lemma OneLeaf(h: PairHash, vTxid: seq<Hash>)
    requires |vTxid| == 1 && 0 < Width(1, 0)
    ensures CalcHash(h, 0, 0, vTxid) == vTxid[0]
  {
  }

  lemma WidthsOfThree()
    ensures Width(3, 0) == 3 && Width(3, 1) == 2 && Width(3, 2) == 1 && TreeHeight(3, 0) == 2
  {
    hide Width;
    WidthZero(3);
    HalfWidth(3, 1);
    HalfWidth(3, 2);
    HeightWhere(3, 0, 2);
  }

  /** A partial tree in full: of three ids the last is matched. The root is expanded, its left child is not and leaves
      its hash; its right child is, and leaves the id. */
  lemma LastOfThree(h: PairHash, a: Hash, b: Hash, c: Hash)
    ensures Built(h, [a, b, c], [false, false, true]) == Tree(3, [true, false, true, true], [h(a, b), c])
    ensures MerkleRoot(h, [a, b, c]) == h(h(a, b), h(c, c))
  {
    hide Width, CalcHash, AnyMatch, TreeHeight, BuildBits, BuildHashes, RootByLevels;
    WidthsOfThree();
    ThreeRoot(h, a, b, c);
    ThreeBits([false, false, true]);
    ThreeHashes(h, [a, b, c], [false, false, true]);
  }

  lemma ThreeRoot(h: PairHash, a: Hash, b: Hash, c: Hash)
    ensures MerkleRoot(h, [a, b, c]) == h(h(a, b), h(c, c))
  {
    hide MerkleRoot;
    var v := [a, b, c];
    RootIsByLevels(h, v);
    var up := Paired(h, v);
    assert up == [h(a, b), h(c, c)];
    assert Paired(h, up) == [h(h(a, b), h(c, c))];
    assert RootByLevels(h, up) == RootByLevels(h, Paired(h, up)) == h(h(a, b), h(c, c));
  }

  lemma ThreeBits(m: seq<bool>)
    requires m == [false, false, true]
    ensures BuildBits(2, 0, m) == [true, false, true, true]
  {
    hide Width, AnyMatch;
    WidthsOfThree();
    ThreeMatches(m);
    Powers4();
    assert BuildBits(1, 0, m) == [false];
    assert BuildBits(0, 2, m) == [true];
    assert BuildBits(1, 1, m) == [true, true];
  }

  lemma ThreeHashes(h: PairHash, v: seq<Hash>, m: seq<bool>)
    requires |v| == 3 && m == [false, false, true] && 0 < Width(3, 2)
    ensures BuildHashes(h, 2, 0, v, m) == [h(v[0], v[1]), v[2]]
  {
    hide Width, AnyMatch, CalcHash;
    WidthsOfThree();
    ThreeMatches(m);
    Powers4();
    LevelUp(h, v, 0, 0);
    PlainLeaf(h, Paired(h, v), 0);
    PlainLeaf(h, v, 2);
    assert BuildHashes(h, 1, 0, v, m) == [h(v[0], v[1])];
    assert BuildHashes(h, 0, 2, v, m) == [v[2]];
    assert BuildHashes(h, 1, 1, v, m) == [v[2]];
  }

  lemma Powers4()
    ensures Pow2(0) == 1 && Pow2(1) == 2 && Pow2(2) == 4
  {
  }

  lemma PlainLeaf(h: PairHash, v: seq<Hash>, pos: nat)
    requires pos < |v|
    ensures pos < Width(|v|, 0) && CalcHash(h, 0, pos, v) == v[pos]
  {
    Leaves(|v|, pos);
  }

  lemma ThreeMatches(m: seq<bool>)
    requires m == [false, false, true]
    ensures AnyMatch(m, 0, 3) && !AnyMatch(m, 0, 2) && AnyMatch(m, 2, 3)
  {
    assert m[2];
  }
}
