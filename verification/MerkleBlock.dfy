/** Partial Merkle trees (the partial Merkle branch format of BIP 37): building one from the
    transaction ids of a block and a mask, packing its bits, and extracting matches again.
    The pair hash is a parameter. "No collision" is always asked of a finite set of
    pairs only: the ones that are hashed in building the block's tree or in walking the proof. */
module MerkleBlock {

  import opened ByteBits
  import opened Powers

  type Hash = int
  type PairHash = (Hash, Hash) -> Hash

  /** uint256() */
  const ZERO: Hash := 0
  const MAX_BLOCK_BASE_SIZE: nat := 1000000

  /** x >> k */
  function ShiftRight(x: nat, k: nat): nat {
    if k == 0 then x else ShiftRight(x / 2, k - 1)
  }

  lemma {:induction false} ShiftBounds(x: nat, k: nat)
    ensures ShiftRight(x, k) * Pow2(k) <= x < (ShiftRight(x, k) + 1) * Pow2(k)
  {
    if k > 0 {
      ShiftBounds(x / 2, k - 1);
      var q, p := ShiftRight(x / 2, k - 1), Pow2(k - 1);
      TwiceTimes(q, p);
      TwiceTimes(q + 1, p);
    }
  }

  lemma TwiceTimes(a: int, b: int)
    ensures a * (2 * b) == 2 * (a * b)
  {
  }

  /** CalcTreeWidth: the number of nodes at a height. */
  function Width(n: nat, height: nat): nat {
    ShiftRight(n + Pow2(height) - 1, height)
  }

  lemma WidthIff(n: nat, height: nat, pos: nat)
    ensures pos < Width(n, height) <==> pos * Pow2(height) < n
  {
    var p, w := Pow2(height), Width(n, height);
    ShiftBounds(n + p - 1, height);
    if pos < w { MulLe(pos + 1, w, p); } else { MulLe(w, pos, p); }
  }

  lemma MulLe(a: int, b: int, c: nat)
    requires a <= b
    ensures a * c <= b * c
    ensures (a + 1) * c == a * c + c && (b + 1) * c == b * c + c
  {
    assert (b - a) * c >= 0;
  }

  lemma Halves(height: nat, pos: nat)
    requires height > 0
    ensures 2 * pos * Pow2(height - 1) == pos * Pow2(height)
    ensures (2 * pos + 1) * Pow2(height - 1) == pos * Pow2(height) + Pow2(height - 1)
    ensures (2 * pos + 2) * Pow2(height - 1) == (pos + 1) * Pow2(height) == pos * Pow2(height) + Pow2(height)
  {
    var q := Pow2(height - 1);
    assert (2 * pos + 1) * q == 2 * pos * q + q;
    assert (2 * pos + 2) * q == 2 * pos * q + 2 * q;
    assert pos * (2 * q) == 2 * pos * q;
    assert (pos + 1) * (2 * q) == pos * (2 * q) + 2 * q;
  }

  /** Whether a node has a right child. */
  predicate HasRight(n: nat, height: nat, pos: nat)
    requires height > 0
  {
    pos * 2 + 1 < Width(n, height - 1)
  }

  lemma Children(n: nat, height: nat, pos: nat)
    requires height > 0 && pos < Width(n, height)
    ensures pos * 2 < Width(n, height - 1)
  {
    WidthIff(n, height, pos);
    WidthIff(n, height - 1, pos * 2);
    Halves(height, pos);
  }

  lemma RightChild(n: nat, height: nat, pos: nat)
    requires height > 0
    ensures HasRight(n, height, pos) <==> First(height, pos) + Pow2(height - 1) < n
  {
    WidthIff(n, height - 1, pos * 2 + 1);
    Halves(height, pos);
  }

  function CalcHash(h: PairHash, height: nat, pos: nat, vTxid: seq<Hash>): Hash
    requires pos < Width(|vTxid|, height)
  {
    if height == 0 then WidthIff(|vTxid|, 0, pos); vTxid[pos] else
      Children(|vTxid|, height, pos);
      var left := CalcHash(h, height - 1, pos * 2, vTxid);
      var right := if HasRight(|vTxid|, height, pos) then CalcHash(h, height - 1, pos * 2 + 1, vTxid) else left;
      h(left, right)
  }

  /** The height at which one node is left. */
  function TreeHeight(n: nat, from: nat): nat
    decreases if n > Pow2(from) then n - Pow2(from) else 0
  {
    if Width(n, from) > 1 then WidthIff(n, from, 1); TreeHeight(n, from + 1) else from
  }

  lemma {:induction false} TreeHeightTop(n: nat, from: nat)
    requires n > 0
    ensures Width(n, TreeHeight(n, from)) == 1
    decreases if n > Pow2(from) then n - Pow2(from) else 0
  {
    WidthIff(n, from, 0);
    if Width(n, from) > 1 {
      WidthIff(n, from, 1);
      TreeHeightTop(n, from + 1);
    }
  }

  function Min(a: nat, b: nat): nat { if a < b then a else b }

  /** The leaves below a node are the positions from First up to Last. */
  function First(height: nat, pos: nat): nat { pos * Pow2(height) }
  function Last(n: nat, height: nat, pos: nat): nat { Min((pos + 1) * Pow2(height), n) }

  predicate AnyMatch(vMatch: seq<bool>, lo: nat, hi: nat)
    requires hi <= |vMatch|
  {
    exists p :: lo <= p < hi && vMatch[p]
  }

  // ------------------------------------------------------------ building

  function BuildBits(height: nat, pos: nat, vMatch: seq<bool>): seq<bool> {
    var n := |vMatch|;
    var f := AnyMatch(vMatch, First(height, pos), Last(n, height, pos));
    if height == 0 || !f then [f] else
      [f] + BuildBits(height - 1, pos * 2, vMatch)
          + if HasRight(n, height, pos) then BuildBits(height - 1, pos * 2 + 1, vMatch) else []
  }

  function BuildHashes(h: PairHash, height: nat, pos: nat, vTxid: seq<Hash>, vMatch: seq<bool>): seq<Hash>
    requires |vMatch| == |vTxid| && pos < Width(|vTxid|, height)
  {
    var n := |vMatch|;
    var f := AnyMatch(vMatch, First(height, pos), Last(n, height, pos));
    if height == 0 || !f then [CalcHash(h, height, pos, vTxid)] else
      Children(n, height, pos);
      BuildHashes(h, height - 1, pos * 2, vTxid, vMatch)
        + if HasRight(n, height, pos) then BuildHashes(h, height - 1, pos * 2 + 1, vTxid, vMatch) else []
  }

  // ------------------------------------------------------------ extracting

  datatype Tree = Tree(n: nat, bits: seq<bool>, hashes: seq<Hash>)

  /** The running state of an extraction. */
  datatype Cursor = Cursor(bitsUsed: nat, hashUsed: nat, bad: bool, vMatch: seq<Hash>, vnIndex: seq<nat>)

  function Extract(h: PairHash, t: Tree, height: nat, pos: nat, c: Cursor): (Hash, Cursor) {
    if c.bitsUsed >= |t.bits| then (ZERO, c.(bad := true)) else
      var f := t.bits[c.bitsUsed];
      var c1 := c.(bitsUsed := c.bitsUsed + 1);
      if height == 0 || !f then
        if c1.hashUsed >= |t.hashes| then (ZERO, c1.(bad := true)) else
          var hash := t.hashes[c1.hashUsed];
          var c2 := c1.(hashUsed := c1.hashUsed + 1);
          (hash, if height == 0 && f then c2.(vMatch := c2.vMatch + [hash], vnIndex := c2.vnIndex + [pos]) else c2)
      else
        var (left, cl) := Extract(h, t, height - 1, pos * 2, c1);
        if HasRight(t.n, height, pos) then
          var (right, cr) := Extract(h, t, height - 1, pos * 2 + 1, cl);
          (h(left, right), if right == left then cr.(bad := true) else cr)
        else (h(left, left), cl)
  }

  predicate Plausible(t: Tree) {
    0 < t.n <= MAX_BLOCK_BASE_SIZE / 60 && |t.hashes| <= t.n && |t.hashes| <= |t.bits|
  }

  /** Whether an extraction succeeded: nothing bad, all bits but padding used, all hashes used. */
  predicate Consumed(t: Tree, c: Cursor) {
    !c.bad && (c.bitsUsed + 7) / 8 == (|t.bits| + 7) / 8 && c.hashUsed == |t.hashes|
  }

  /** What ExtractMatches returns, with the lists it has filled and fBad. */
  function MatchesOf(h: PairHash, t: Tree, fBad: bool, vnIndex: seq<nat>): (Hash, seq<Hash>, seq<nat>, bool) {
    if !Plausible(t) then (ZERO, [], vnIndex, fBad) else
      var (root, c) := Extract(h, t, TreeHeight(t.n, 0), 0, Cursor(0, 0, fBad, [], vnIndex));
      (if Consumed(t, c) then root else ZERO, c.vMatch, c.vnIndex, c.bad)
  }

  // ------------------------------------------------------------ collisions

  ghost predicate NoCollision(h: PairHash, pairs: set<(Hash, Hash)>) {
    forall p, q :: p in pairs && q in pairs && h(p.0, p.1) == h(q.0, q.1) ==> p == q
  }

  /** `pairs` holds every pair hashed below a node of the block's own tree. */
  ghost predicate TreeWithin(h: PairHash, height: nat, pos: nat, vTxid: seq<Hash>, pairs: set<(Hash, Hash)>)
    requires pos < Width(|vTxid|, height)
  {
    height == 0 ||
    (Children(|vTxid|, height, pos);
     var left := CalcHash(h, height - 1, pos * 2, vTxid);
     && TreeWithin(h, height - 1, pos * 2, vTxid, pairs)
     && if HasRight(|vTxid|, height, pos) then
          (left, CalcHash(h, height - 1, pos * 2 + 1, vTxid)) in pairs
              && TreeWithin(h, height - 1, pos * 2 + 1, vTxid, pairs)
        else (left, left) in pairs)
  }

  /** `pairs` holds every pair hashed in walking a proof. */
  ghost predicate WalkWithin(h: PairHash, t: Tree, height: nat, pos: nat, c: Cursor, pairs: set<(Hash, Hash)>) {
    height == 0 || c.bitsUsed >= |t.bits| || !t.bits[c.bitsUsed] ||
    (var c1 := c.(bitsUsed := c.bitsUsed + 1);
     var (left, cl) := Extract(h, t, height - 1, pos * 2, c1);
     && WalkWithin(h, t, height - 1, pos * 2, c1, pairs)
     && if HasRight(t.n, height, pos) then
          (left, Extract(h, t, height - 1, pos * 2 + 1, cl).0) in pairs
              && WalkWithin(h, t, height - 1, pos * 2 + 1, cl, pairs)
        else (left, left) in pairs)
  }

  lemma {:induction false} BadStays(h: PairHash, t: Tree, height: nat, pos: nat, c: Cursor)
    ensures var c' := Extract(h, t, height, pos, c).1; c.bad ==> c'.bad
  {
    hide Width;
    if c.bitsUsed < |t.bits| && height > 0 && t.bits[c.bitsUsed] {
      var c1 := c.(bitsUsed := c.bitsUsed + 1);
      BadStays(h, t, height - 1, pos * 2, c1);
      var (left, cl) := Extract(h, t, height - 1, pos * 2, c1);
      if HasRight(t.n, height, pos) { BadStays(h, t, height - 1, pos * 2 + 1, cl); }
    }
  }

  /** Every id extracted is the block's own at the index extracted with it. */
  ghost predicate Authentic(c: Cursor, vTxid: seq<Hash>) {
    && |c.vnIndex| == |c.vMatch|
    && forall k :: 0 <= k < |c.vMatch| ==> c.vnIndex[k] < |vTxid| && c.vMatch[k] == vTxid[c.vnIndex[k]]
  }

  lemma LeafSound(h: PairHash, t: Tree, vTxid: seq<Hash>, height: nat, pos: nat, c: Cursor)
    requires pos < Width(|vTxid|, height) && Authentic(c, vTxid)
    requires height == 0 || c.bitsUsed >= |t.bits| || !t.bits[c.bitsUsed]
    requires var (r, c') := Extract(h, t, height, pos, c); !c'.bad && r == CalcHash(h, height, pos, vTxid)
    ensures Authentic(Extract(h, t, height, pos, c).1, vTxid)
  {
    WidthIff(|vTxid|, height, pos);
    assert height == 0 ==> pos * Pow2(height) == pos;
  }

  lemma SamePair(h: PairHash, pairs: set<(Hash, Hash)>, a: Hash, b: Hash, a': Hash, b': Hash)
    requires NoCollision(h, pairs) && (a, b) in pairs && (a', b') in pairs && h(a, b) == h(a', b')
    ensures a == a' && b == b'
  {
    var p, q := (a, b), (a', b');
    assert p in pairs && q in pairs && h(p.0, p.1) == h(q.0, q.1);
  }

  /** What a walk leaves behind at an inner node, when it ends well. */
  lemma WalkEnds(h: PairHash, t: Tree, height: nat, pos: nat, c: Cursor, left: (Hash, Cursor), right: (Hash, Cursor))
    requires height > 0 && c.bitsUsed < |t.bits| && t.bits[c.bitsUsed] && !Extract(h, t, height, pos, c).1.bad
    requires left == Extract(h, t, height - 1, pos * 2, c.(bitsUsed := c.bitsUsed + 1))
    requires right == if HasRight(t.n, height, pos) then Extract(h, t, height - 1, pos * 2 + 1, left.1) else left
    ensures Extract(h, t, height, pos, c) == (h(left.0, right.0), right.1) && !left.1.bad && !right.1.bad
    ensures HasRight(t.n, height, pos) ==> left.0 != right.0
  {
    hide Width;
    if HasRight(t.n, height, pos) { BadStays(h, t, height - 1, pos * 2 + 1, left.1); }
  }

  /** The pairs at an inner node of the block and of the walk are among `pairs`, and so are those below. */
  lemma WalkSplit(h: PairHash, t: Tree, height: nat, pos: nat, c: Cursor, left: (Hash, Cursor), right: (Hash, Cursor),
                  pairs: set<(Hash, Hash)>)
    requires height > 0 && c.bitsUsed < |t.bits| && t.bits[c.bitsUsed] && WalkWithin(h, t, height, pos, c, pairs)
    requires left == Extract(h, t, height - 1, pos * 2, c.(bitsUsed := c.bitsUsed + 1))
    requires right == if HasRight(t.n, height, pos) then Extract(h, t, height - 1, pos * 2 + 1, left.1) else left
    ensures (left.0, right.0) in pairs && WalkWithin(h, t, height - 1, pos * 2, c.(bitsUsed := c.bitsUsed + 1), pairs)
    ensures HasRight(t.n, height, pos) ==> WalkWithin(h, t, height - 1, pos * 2 + 1, left.1, pairs)
  {
    hide Width;
  }

  lemma TreeSplit(h: PairHash, height: nat, pos: nat, vTxid: seq<Hash>, pairs: set<(Hash, Hash)>)
    requires height > 0 && pos < Width(|vTxid|, height) && TreeWithin(h, height, pos, vTxid, pairs)
    ensures pos * 2 < Width(|vTxid|, height - 1) && TreeWithin(h, height - 1, pos * 2, vTxid, pairs)
    ensures var left := CalcHash(h, height - 1, pos * 2, vTxid);
            var right := if HasRight(|vTxid|, height, pos) then CalcHash(h, height - 1, pos * 2 + 1, vTxid) else left;
            (left, right) in pairs && CalcHash(h, height, pos, vTxid) == h(left, right)
    ensures HasRight(|vTxid|, height, pos) ==> TreeWithin(h, height - 1, pos * 2 + 1, vTxid, pairs)
  {
    Children(|vTxid|, height, pos);
  }

  /** The walk below (height, pos) ends well at the block's own node. */
  ghost predicate Arrives(h: PairHash, t: Tree, vTxid: seq<Hash>, height: nat, pos: nat, c: Cursor)
    requires pos < Width(|vTxid|, height)
  {
    var (r, c') := Extract(h, t, height, pos, c);
    !c'.bad && r == CalcHash(h, height, pos, vTxid)
  }

  /** The number of transactions that a proof claims is right, or the block has no id twice. */
  ghost predicate Comparable(t: Tree, vTxid: seq<Hash>) { |vTxid| == t.n || Distinct(vTxid) }

  /** A walk that ends well at the block's node goes right exactly where the block's tree does: a proof that goes right
      where it does not would need equal siblings, which are rejected, and one that does not go right where the tree
      does would need a block with equal siblings. */
  lemma SameShape(h: PairHash, t: Tree, vTxid: seq<Hash>, height: nat, pos: nat, c: Cursor, left: (Hash, Cursor),
                  right: (Hash, Cursor), pairs: set<(Hash, Hash)>)
    requires Comparable(t, vTxid) && pos < Width(|vTxid|, height) && NoCollision(h, pairs)
    requires height > 0 && c.bitsUsed < |t.bits| && t.bits[c.bitsUsed]
    requires left == Extract(h, t, height - 1, pos * 2, c.(bitsUsed := c.bitsUsed + 1))
    requires right == if HasRight(t.n, height, pos) then Extract(h, t, height - 1, pos * 2 + 1, left.1) else left
    requires TreeWithin(h, height, pos, vTxid, pairs) && WalkWithin(h, t, height, pos, c, pairs)
             && Arrives(h, t, vTxid, height, pos, c)
    ensures pos * 2 < Width(|vTxid|, height - 1) && HasRight(t.n, height, pos) == HasRight(|vTxid|, height, pos)
    ensures left.0 == CalcHash(h, height - 1, pos * 2, vTxid)
    ensures HasRight(t.n, height, pos) ==> right.0 == CalcHash(h, height - 1, pos * 2 + 1, vTxid)
  {
    hide Width, WalkWithin, TreeWithin, NoCollision, Distinct, CalcHash, Extract;
    WalkEnds(h, t, height, pos, c, left, right);
    WalkSplit(h, t, height, pos, c, left, right, pairs);
    TreeSplit(h, height, pos, vTxid, pairs);
    var left' := CalcHash(h, height - 1, pos * 2, vTxid);
    var right' := if HasRight(|vTxid|, height, pos) then CalcHash(h, height - 1, pos * 2 + 1, vTxid) else left';
    SamePair(h, pairs, left.0, right.0, left', right');
    if !HasRight(t.n, height, pos) && HasRight(|vTxid|, height, pos) { SiblingsDiffer(h, height, pos, vTxid, pairs); }
  }

  /** A walk that ends well at the block's node ends well at the block's node in both children. */
  lemma ArrivesBelow(h: PairHash, t: Tree, vTxid: seq<Hash>, height: nat, pos: nat, c: Cursor, c1: Cursor,
                     pairs: set<(Hash, Hash)>)
    requires Comparable(t, vTxid) && pos < Width(|vTxid|, height) && NoCollision(h, pairs)
    requires height > 0 && c.bitsUsed < |t.bits| && t.bits[c.bitsUsed] && c1 == c.(bitsUsed := c.bitsUsed + 1)
    requires TreeWithin(h, height, pos, vTxid, pairs) && WalkWithin(h, t, height, pos, c, pairs)
             && Arrives(h, t, vTxid, height, pos, c)
    ensures pos * 2 < Width(|vTxid|, height - 1) && Arrives(h, t, vTxid, height - 1, pos * 2, c1)
    ensures HasRight(t.n, height, pos) == HasRight(|vTxid|, height, pos)
    ensures HasRight(t.n, height, pos) ==>
              Arrives(h, t, vTxid, height - 1, pos * 2 + 1, Extract(h, t, height - 1, pos * 2, c1).1)
  {
    hide Width, WalkWithin, TreeWithin, NoCollision;
    var left := Extract(h, t, height - 1, pos * 2, c1);
    var right := if HasRight(t.n, height, pos) then Extract(h, t, height - 1, pos * 2 + 1, left.1) else left;
    WalkEnds(h, t, height, pos, c, left, right);
    SameShape(h, t, vTxid, height, pos, c, left, right, pairs);
  }

  /** A proof node that hashes to the block's node at the same place yields only the block's transactions. */
  lemma {:induction false} ExtractSound(h: PairHash, t: Tree, vTxid: seq<Hash>, height: nat, pos: nat, c: Cursor,
                                        pairs: set<(Hash, Hash)>)
    requires Comparable(t, vTxid) && pos < Width(|vTxid|, height) && NoCollision(h, pairs)
    requires TreeWithin(h, height, pos, vTxid, pairs) && WalkWithin(h, t, height, pos, c, pairs)
    requires Authentic(c, vTxid) && Arrives(h, t, vTxid, height, pos, c)
    ensures Authentic(Extract(h, t, height, pos, c).1, vTxid)
  {
    hide Width, WalkWithin, TreeWithin, NoCollision, CalcHash;
    if height == 0 || c.bitsUsed >= |t.bits| || !t.bits[c.bitsUsed] {
      LeafSound(h, t, vTxid, height, pos, c);
    } else {
      var c1 := c.(bitsUsed := c.bitsUsed + 1);
      ArrivesBelow(h, t, vTxid, height, pos, c, c1, pairs);
      var left := Extract(h, t, height - 1, pos * 2, c1);
      var right := if HasRight(t.n, height, pos) then Extract(h, t, height - 1, pos * 2 + 1, left.1) else left;
      WalkEnds(h, t, height, pos, c, left, right);
      WalkSplit(h, t, height, pos, c, left, right, pairs);
      TreeSplit(h, height, pos, vTxid, pairs);
      ExtractSound(h, t, vTxid, height - 1, pos * 2, c1, pairs);
      if HasRight(t.n, height, pos) { ExtractSound(h, t, vTxid, height - 1, pos * 2 + 1, left.1, pairs); }
    }
  }

  /** The Merkle root of a block with these transaction ids. */
  function MerkleRoot(h: PairHash, vTxid: seq<Hash>): Hash
    requires |vTxid| > 0
  {
    TreeHeightTop(|vTxid|, 0);
    CalcHash(h, TreeHeight(|vTxid|, 0), 0, vTxid)
  }

  /** `pairs` holds every pair hashed in computing the Merkle root of the block. */
  ghost predicate BlockWithin(h: PairHash, vTxid: seq<Hash>, pairs: set<(Hash, Hash)>)
    requires |vTxid| > 0
  {
    TreeHeightTop(|vTxid|, 0);
    TreeWithin(h, TreeHeight(|vTxid|, 0), 0, vTxid, pairs)
  }

  /** Strictly increasing, up to a bound. */
  ghost predicate Rising(s: seq<nat>, bound: nat) {
    && (forall i, j :: 0 <= i < j < |s| ==> s[i] < s[j])
    && forall i :: 0 <= i < |s| ==> s[i] < bound
  }

  lemma RisingWider(s: seq<nat>, bound: nat, wider: nat)
    requires Rising(s, bound) && bound < wider
    ensures Rising(s, wider) && Rising(s + [bound], wider)
  {
  }

  lemma FirstBelow(height: nat, pos: nat)
    ensures First(height, pos) < First(height, pos + 1) && First(0, pos) == pos
    ensures height > 0 ==>
              First(height - 1, pos * 2) == First(height, pos)
              && First(height - 1, pos * 2 + 2) == First(height, pos + 1)
  {
    MulLe(pos, pos, Pow2(height));
    if height > 0 { Halves(height, pos); }
  }

  /** A walk adds indices from left to right, whatever the proof. */
  lemma {:induction false} ExtractRises(h: PairHash, t: Tree, height: nat, pos: nat, c: Cursor)
    requires Rising(c.vnIndex, First(height, pos))
    ensures Rising(Extract(h, t, height, pos, c).1.vnIndex, First(height, pos + 1))
  {
    hide HasRight, First, Rising;
    FirstBelow(height, pos);
    RisingWider(c.vnIndex, First(height, pos), First(height, pos + 1));
    if c.bitsUsed < |t.bits| && height > 0 && t.bits[c.bitsUsed] {
      var c1 := c.(bitsUsed := c.bitsUsed + 1);
      ExtractRises(h, t, height - 1, pos * 2, c1);
      var (left, cl) := Extract(h, t, height - 1, pos * 2, c1);
      FirstBelow(height - 1, pos * 2 + 1);
      if HasRight(t.n, height, pos) {
        ExtractRises(h, t, height - 1, pos * 2 + 1, cl);
      } else {
        RisingWider(cl.vnIndex, First(height - 1, pos * 2 + 1), First(height, pos + 1));
      }
    }
  }

  /** If a proof extracts to the Merkle root of a block's transaction ids, and no two different pairs hashed on the
      way collide, then every id it returns is the block's own transaction id at the index it returns, and no index is
      returned twice. The number of transactions that the proof claims need not be right, if it gives a tree of the same
      height and the block has no id twice. */
  lemma ExtractAuthentic(h: PairHash, t: Tree, fBad: bool, vTxid: seq<Hash>, pairs: set<(Hash, Hash)>)
    requires |vTxid| > 0 && t.n > 0 && NoCollision(h, pairs) && BlockWithin(h, vTxid, pairs)
    requires |vTxid| == t.n || (Distinct(vTxid) && TreeHeight(|vTxid|, 0) == TreeHeight(t.n, 0))
    requires WalkWithin(h, t, TreeHeight(t.n, 0), 0, Cursor(0, 0, fBad, [], []), pairs)
    requires MatchesOf(h, t, fBad, []).0 == MerkleRoot(h, vTxid) != ZERO
    ensures var (root, ids, idx, bad) := MatchesOf(h, t, fBad, []);
            && |ids| == |idx| && (forall k :: 0 <= k < |ids| ==> idx[k] < |vTxid| && ids[k] == vTxid[idx[k]])
            && forall i, j :: 0 <= i < j < |idx| ==> idx[i] < idx[j]
  {
    TreeHeightTop(|vTxid|, 0);
    var H, c := TreeHeight(t.n, 0), Cursor(0, 0, fBad, [], []);
    ExtractRises(h, t, H, 0, c);
    var (r, c') := Extract(h, t, H, 0, c);
    assert MatchesOf(h, t, fBad, []) == (r, c'.vMatch, c'.vnIndex, c'.bad) && !c'.bad;
    ExtractSound(h, t, vTxid, H, 0, c, pairs);
    assert Authentic(c', vTxid);
  }

  /** A root other than zero comes only from a proof with a number of transactions that fits a block, no more hashes
      than that and no more than bits, that the walk uses up: all its hashes, and all its bits but for padding. */
  lemma ExtractRejects(h: PairHash, t: Tree, fBad: bool, vnIndex: seq<nat>)
    requires MatchesOf(h, t, fBad, vnIndex).0 != ZERO
    ensures 0 < t.n <= 16666 && |t.hashes| <= t.n && |t.hashes| <= |t.bits|
    ensures var (root, c) := Extract(h, t, TreeHeight(t.n, 0), 0, Cursor(0, 0, fBad, [], vnIndex));
            && !c.bad && !fBad && c.hashUsed == |t.hashes|
            && (|t.bits| % 8 == 0 && c.bitsUsed <= |t.bits| ==> |t.bits| - c.bitsUsed < 8)
  {
    BadStays(h, t, TreeHeight(t.n, 0), 0, Cursor(0, 0, fBad, [], vnIndex));
  }

  // ------------------------------------------------------------ building, then extracting

  /** The matched positions from `lo` up to `hi`, and the ids there. */
  function MatchedPositions(vMatch: seq<bool>, lo: nat, hi: nat): seq<nat>
    requires hi <= |vMatch|
    decreases hi - lo
  {
    if lo >= hi then [] else (if vMatch[lo] then [lo] else []) + MatchedPositions(vMatch, lo + 1, hi)
  }

  function MatchedIds(vTxid: seq<Hash>, vMatch: seq<bool>, lo: nat, hi: nat): seq<Hash>
    requires hi <= |vMatch| == |vTxid|
    decreases hi - lo
  {
    if lo >= hi then [] else (if vMatch[lo] then [vTxid[lo]] else []) + MatchedIds(vTxid, vMatch, lo + 1, hi)
  }

  lemma {:induction false} PositionsSplit(vMatch: seq<bool>, lo: nat, mid: nat, hi: nat)
    requires lo <= mid <= hi <= |vMatch|
    ensures MatchedPositions(vMatch, lo, hi) == MatchedPositions(vMatch, lo, mid) + MatchedPositions(vMatch, mid, hi)
    decreases mid - lo
  {
    if lo < mid {
      PositionsSplit(vMatch, lo + 1, mid, hi);
      var x := if vMatch[lo] then [lo] else [];
      var a, b := MatchedPositions(vMatch, lo + 1, mid), MatchedPositions(vMatch, mid, hi);
      assert x + a + b == x + (a + b);
    }
  }

  lemma {:induction false} IdsSplit(vTxid: seq<Hash>, vMatch: seq<bool>, lo: nat, mid: nat, hi: nat)
    requires lo <= mid <= hi <= |vMatch| == |vTxid|
    ensures MatchedIds(vTxid, vMatch, lo, hi) == MatchedIds(vTxid, vMatch, lo, mid) + MatchedIds(vTxid, vMatch, mid, hi)
    decreases mid - lo
  {
    if lo < mid {
      IdsSplit(vTxid, vMatch, lo + 1, mid, hi);
      var x := if vMatch[lo] then [vTxid[lo]] else [];
      var a, b := MatchedIds(vTxid, vMatch, lo + 1, mid), MatchedIds(vTxid, vMatch, mid, hi);
      assert x + a + b == x + (a + b);
    }
  }

  lemma {:induction false} MatchedNone(vTxid: seq<Hash>, vMatch: seq<bool>, lo: nat, hi: nat)
    requires hi <= |vMatch| == |vTxid| && !AnyMatch(vMatch, lo, hi)
    ensures MatchedPositions(vMatch, lo, hi) == [] && MatchedIds(vTxid, vMatch, lo, hi) == []
    decreases hi - lo
  {
    if lo < hi { MatchedNone(vTxid, vMatch, lo + 1, hi); }
  }

  /** The leaves of a node are those of its left child followed by those of its right child. */
  lemma Ranges(n: nat, height: nat, pos: nat)
    requires height > 0 && pos < Width(n, height)
    ensures var lo, hi, mid := First(height, pos), Last(n, height, pos), Last(n, height - 1, pos * 2);
            && First(height - 1, pos * 2) == lo < mid <= hi <= n
            && if HasRight(n, height, pos)
               then First(height - 1, pos * 2 + 1) == mid < hi == Last(n, height - 1, pos * 2 + 1) else mid == hi
  {
    WidthIff(n, height, pos);
    RightChild(n, height, pos);
    Halves(height, pos);
  }

  /** `sub` stands at position `i` of `s`. */
  ghost predicate At<T>(s: seq<T>, i: nat, sub: seq<T>) {
    i + |sub| <= |s| && s[i..i + |sub|] == sub
  }

  lemma AtSplit<T>(s: seq<T>, i: nat, a: seq<T>, b: seq<T>)
    requires At(s, i, a + b)
    ensures At(s, i, a) && At(s, i + |a|, b)
  {
    var w := s[i..i + |a + b|];
    assert w[..|a|] == a && w[|a|..] == b;
    assert s[i..i + |a|] == w[..|a|] && s[i + |a|..i + |a| + |b|] == w[|a|..];
  }

  lemma AtSplitTail<T>(s: seq<T>, i: nat, x: T, a: seq<T>, b: seq<T>)
    requires At(s, i, [x] + a + b)
    ensures At(s, i + 1, a) && At(s, i + 1 + |a|, b)
  {
    assert [x] + a + b == [x] + (a + b);
    AtSplit(s, i, [x], a + b);
    AtSplit(s, i + 1, a, b);
  }

  ghost predicate Distinct(vTxid: seq<Hash>) {
    forall i, j :: 0 <= i < j < |vTxid| ==> vTxid[i] != vTxid[j]
  }

  /** Two nodes of one height with the same hash have the same leftmost transaction id. */
  lemma {:induction false} SameNode(h: PairHash, height: nat, p: nat, q: nat, vTxid: seq<Hash>,
                                    pairs: set<(Hash, Hash)>)
    requires p < Width(|vTxid|, height) && q < Width(|vTxid|, height) && NoCollision(h, pairs)
    requires TreeWithin(h, height, p, vTxid, pairs) && TreeWithin(h, height, q, vTxid, pairs)
    requires CalcHash(h, height, p, vTxid) == CalcHash(h, height, q, vTxid)
    ensures First(height, p) < |vTxid| && First(height, q) < |vTxid|
            && vTxid[First(height, p)] == vTxid[First(height, q)]
  {
    hide Width;
    WidthIff(|vTxid|, height, p);
    WidthIff(|vTxid|, height, q);
    if height > 0 {
      Children(|vTxid|, height, p);
      Children(|vTxid|, height, q);
      var l, l' := CalcHash(h, height - 1, p * 2, vTxid), CalcHash(h, height - 1, q * 2, vTxid);
      var r := if HasRight(|vTxid|, height, p) then CalcHash(h, height - 1, p * 2 + 1, vTxid) else l;
      var r' := if HasRight(|vTxid|, height, q) then CalcHash(h, height - 1, q * 2 + 1, vTxid) else l';
      SamePair(h, pairs, l, r, l', r');
      SameNode(h, height - 1, p * 2, q * 2, vTxid, pairs);
      Halves(height, p);
      Halves(height, q);
    }
  }

  lemma SiblingsDiffer(h: PairHash, height: nat, pos: nat, vTxid: seq<Hash>, pairs: set<(Hash, Hash)>)
    requires height > 0 && pos < Width(|vTxid|, height) && HasRight(|vTxid|, height, pos) && Distinct(vTxid)
    requires NoCollision(h, pairs) && TreeWithin(h, height, pos, vTxid, pairs)
    ensures pos * 2 < Width(|vTxid|, height - 1)
    ensures CalcHash(h, height - 1, pos * 2, vTxid) != CalcHash(h, height - 1, pos * 2 + 1, vTxid)
  {
    Children(|vTxid|, height, pos);
    if CalcHash(h, height - 1, pos * 2, vTxid) == CalcHash(h, height - 1, pos * 2 + 1, vTxid) {
      SameNode(h, height - 1, pos * 2, pos * 2 + 1, vTxid, pairs);
      Ranges(|vTxid|, height, pos);
      assert false;
    }
  }

  /** The state an extraction reaches after a subtree that was built from the block. */
  ghost function Advanced(c: Cursor, bits: nat, hashes: nat, ids: seq<Hash>, idx: seq<nat>): Cursor {
    Cursor(c.bitsUsed + bits, c.hashUsed + hashes, false, c.vMatch + ids, c.vnIndex + idx)
  }

  lemma AdvancedTwice(c: Cursor, b1: nat, h1: nat, i1: seq<Hash>, p1: seq<nat>, b2: nat, h2: nat, i2: seq<Hash>,
                      p2: seq<nat>)
    ensures Advanced(Advanced(c, b1, h1, i1, p1), b2, h2, i2, p2) == Advanced(c, b1 + b2, h1 + h2, i1 + i2, p1 + p2)
  {
    assert c.vMatch + i1 + i2 == c.vMatch + (i1 + i2);
    assert c.vnIndex + p1 + p2 == c.vnIndex + (p1 + p2);
  }

  /** The state after extracting the subtree that was built at (height, pos). */
  ghost function After(h: PairHash, vTxid: seq<Hash>, vMatch: seq<bool>, height: nat, pos: nat, c: Cursor): Cursor
    requires |vTxid| == |vMatch| && pos < Width(|vTxid|, height)
  {
    var lo, hi := First(height, pos), Last(|vTxid|, height, pos);
    Advanced(c, |BuildBits(height, pos, vMatch)|, |BuildHashes(h, height, pos, vTxid, vMatch)|,
             MatchedIds(vTxid, vMatch, lo, hi), MatchedPositions(vMatch, lo, hi))
  }

  lemma AtHead<T>(s: seq<T>, i: nat, sub: seq<T>)
    requires At(s, i, sub) && |sub| > 0
    ensures i < |s| && s[i] == sub[0]
  {
    assert s[i] == s[i..i + |sub|][0];
  }

  lemma LeafMatches(vTxid: seq<Hash>, vMatch: seq<bool>, height: nat, pos: nat)
    requires |vTxid| == |vMatch| && pos < Width(|vTxid|, height)
    requires height == 0 || !AnyMatch(vMatch, First(height, pos), Last(|vTxid|, height, pos))
    ensures var lo, hi := First(height, pos), Last(|vTxid|, height, pos);
            var f := AnyMatch(vMatch, lo, hi);
            && (height == 0 ==> pos < |vTxid|)
            && MatchedPositions(vMatch, lo, hi) == (if height == 0 && f then [pos] else [])
            && MatchedIds(vTxid, vMatch, lo, hi) == (if height == 0 && f then [vTxid[pos]] else [])
  {
    var lo, hi := First(height, pos), Last(|vTxid|, height, pos);
    WidthIff(|vTxid|, height, pos);
    if !AnyMatch(vMatch, lo, hi) {
      MatchedNone(vTxid, vMatch, lo, hi);
    } else {
      assert lo == pos && hi == pos + 1;
      assert MatchedPositions(vMatch, pos + 1, hi) == [] && MatchedIds(vTxid, vMatch, pos + 1, hi) == [];
    }
  }

  lemma ExtractLeaf(h: PairHash, t: Tree, height: nat, pos: nat, c: Cursor)
    requires !c.bad && c.bitsUsed < |t.bits| && c.hashUsed < |t.hashes| && (height == 0 || !t.bits[c.bitsUsed])
    ensures var f, hash := t.bits[c.bitsUsed], t.hashes[c.hashUsed];
            Extract(h, t, height, pos, c) ==
            (hash, Advanced(c, 1, 1, if height == 0 && f then [hash] else [], if height == 0 && f then [pos] else []))
  {
    assert c.vMatch + [] == c.vMatch && c.vnIndex + [] == c.vnIndex;
  }

  /** What was built at (height, pos) stands in the tree where the extraction is. */
  ghost predicate BuiltAt(h: PairHash, t: Tree, vTxid: seq<Hash>, vMatch: seq<bool>, height: nat, pos: nat, c: Cursor)
    requires |vTxid| == |vMatch| && pos < Width(|vTxid|, height)
  {
    At(t.bits, c.bitsUsed, BuildBits(height, pos, vMatch))
        && At(t.hashes, c.hashUsed, BuildHashes(h, height, pos, vTxid, vMatch))
  }

  ghost predicate Extracted(h: PairHash, t: Tree, vTxid: seq<Hash>, vMatch: seq<bool>, height: nat, pos: nat, c: Cursor)
    requires |vTxid| == |vMatch| && pos < Width(|vTxid|, height)
  {
    Extract(h, t, height, pos, c) == (CalcHash(h, height, pos, vTxid), After(h, vTxid, vMatch, height, pos, c))
  }

  lemma LeafExtracted(h: PairHash, t: Tree, vTxid: seq<Hash>, vMatch: seq<bool>, height: nat, pos: nat, c: Cursor)
    requires |vTxid| == |vMatch| == t.n && pos < Width(t.n, height) && !c.bad
             && BuiltAt(h, t, vTxid, vMatch, height, pos, c)
    requires height == 0 || !AnyMatch(vMatch, First(height, pos), Last(t.n, height, pos))
    ensures Extracted(h, t, vTxid, vMatch, height, pos, c)
  {
    AtHead(t.bits, c.bitsUsed, BuildBits(height, pos, vMatch));
    AtHead(t.hashes, c.hashUsed, BuildHashes(h, height, pos, vTxid, vMatch));
    LeafMatches(vTxid, vMatch, height, pos);
    ExtractLeaf(h, t, height, pos, c);
  }

  lemma ExtractStep(h: PairHash, t: Tree, height: nat, pos: nat, c: Cursor, left: (Hash, Cursor), right: (Hash, Cursor))
    requires height > 0 && c.bitsUsed < |t.bits| && t.bits[c.bitsUsed]
    requires left == Extract(h, t, height - 1, pos * 2, c.(bitsUsed := c.bitsUsed + 1))
    requires HasRight(t.n, height, pos) ==> right == Extract(h, t, height - 1, pos * 2 + 1, left.1) && left.0 != right.0
    ensures Extract(h, t, height, pos, c) ==
              if HasRight(t.n, height, pos) then (h(left.0, right.0), right.1) else (h(left.0, left.0), left.1)
  {
  }

  /** The state after a node is the state after its children. */
  lemma AfterStep(h: PairHash, vTxid: seq<Hash>, vMatch: seq<bool>, height: nat, pos: nat, c: Cursor)
    requires |vTxid| == |vMatch| && pos < Width(|vTxid|, height) && height > 0
    requires AnyMatch(vMatch, First(height, pos), Last(|vTxid|, height, pos))
    ensures pos * 2 < Width(|vTxid|, height - 1)
    ensures var cl := After(h, vTxid, vMatch, height - 1, pos * 2, c.(bitsUsed := c.bitsUsed + 1, bad := false));
            After(h, vTxid, vMatch, height, pos, c) ==
            if HasRight(|vTxid|, height, pos) then After(h, vTxid, vMatch, height - 1, pos * 2 + 1, cl) else cl
  {
    hide Width;
    var n := |vTxid|;
    Children(n, height, pos);
    Ranges(n, height, pos);
    var lo, hi, mid := First(height, pos), Last(n, height, pos), Last(n, height - 1, pos * 2);
    PositionsSplit(vMatch, lo, mid, hi);
    IdsSplit(vTxid, vMatch, lo, mid, hi);
    if HasRight(n, height, pos) {
      AdvancedTwice(c.(bitsUsed := c.bitsUsed + 1),
                    |BuildBits(height - 1, pos * 2, vMatch)|, |BuildHashes(h, height - 1, pos * 2, vTxid, vMatch)|,
                    MatchedIds(vTxid, vMatch, lo, mid), MatchedPositions(vMatch, lo, mid),
                    |BuildBits(height - 1, pos * 2 + 1, vMatch)|,
                    |BuildHashes(h, height - 1, pos * 2 + 1, vTxid, vMatch)|,
                    MatchedIds(vTxid, vMatch, mid, hi), MatchedPositions(vMatch, mid, hi));
    }
  }

  /** What was built for a node stands in the tree as what was built for its children. */
  lemma BitsSplit(bits: seq<bool>, vMatch: seq<bool>, height: nat, pos: nat, i: nat)
    requires height > 0 && AnyMatch(vMatch, First(height, pos), Last(|vMatch|, height, pos))
    requires At(bits, i, BuildBits(height, pos, vMatch))
    ensures var bl := BuildBits(height - 1, pos * 2, vMatch);
            && At(bits, i + 1, bl)
            && (HasRight(|vMatch|, height, pos) ==> At(bits, i + 1 + |bl|, BuildBits(height - 1, pos * 2 + 1, vMatch)))
  {
    hide Width;
    var bl := BuildBits(height - 1, pos * 2, vMatch);
    var br := if HasRight(|vMatch|, height, pos) then BuildBits(height - 1, pos * 2 + 1, vMatch) else [];
    AtSplitTail(bits, i, true, bl, br);
  }

  lemma HashesSplit(h: PairHash, hashes: seq<Hash>, vTxid: seq<Hash>, vMatch: seq<bool>, height: nat, pos: nat, j: nat)
    requires |vTxid| == |vMatch| && pos < Width(|vTxid|, height) && height > 0
    requires AnyMatch(vMatch, First(height, pos), Last(|vTxid|, height, pos))
    requires At(hashes, j, BuildHashes(h, height, pos, vTxid, vMatch))
    ensures pos * 2 < Width(|vTxid|, height - 1)
    ensures var hl := BuildHashes(h, height - 1, pos * 2, vTxid, vMatch);
            && At(hashes, j, hl)
            && (HasRight(|vTxid|, height, pos) ==>
                  At(hashes, j + |hl|, BuildHashes(h, height - 1, pos * 2 + 1, vTxid, vMatch)))
  {
    hide Width, AnyMatch, First, Last, At, CalcHash;
    Children(|vTxid|, height, pos);
    var hl := BuildHashes(h, height - 1, pos * 2, vTxid, vMatch);
    var hr := if HasRight(|vTxid|, height, pos) then BuildHashes(h, height - 1, pos * 2 + 1, vTxid, vMatch) else [];
    AtSplit(hashes, j, hl, hr);
  }

  lemma NodeExtracted(h: PairHash, t: Tree, vTxid: seq<Hash>, vMatch: seq<bool>, height: nat, pos: nat, c: Cursor,
                      c1: Cursor, cl: Cursor)
    requires |vTxid| == |vMatch| == t.n && pos < Width(t.n, height) && !c.bad && height > 0
             && c1 == c.(bitsUsed := c.bitsUsed + 1)
    requires AnyMatch(vMatch, First(height, pos), Last(t.n, height, pos)) && c.bitsUsed < |t.bits| && t.bits[c.bitsUsed]
    requires pos * 2 < Width(t.n, height - 1) && cl == After(h, vTxid, vMatch, height - 1, pos * 2, c1)
    requires Extracted(h, t, vTxid, vMatch, height - 1, pos * 2, c1)
    requires HasRight(t.n, height, pos) ==>
               && Extracted(h, t, vTxid, vMatch, height - 1, pos * 2 + 1, cl)
               && CalcHash(h, height - 1, pos * 2, vTxid) != CalcHash(h, height - 1, pos * 2 + 1, vTxid)
    ensures Extracted(h, t, vTxid, vMatch, height, pos, c)
  {
    hide Width;
    AfterStep(h, vTxid, vMatch, height, pos, c);
    var left := (CalcHash(h, height - 1, pos * 2, vTxid), cl);
    if HasRight(t.n, height, pos) {
      ExtractStep(h, t, height, pos, c, left, Extract(h, t, height - 1, pos * 2 + 1, cl));
    } else {
      ExtractStep(h, t, height, pos, c, left, left);
    }
  }

  lemma BuiltSplit(h: PairHash, t: Tree, vTxid: seq<Hash>, vMatch: seq<bool>, height: nat, pos: nat, c: Cursor,
                   c1: Cursor)
    requires |vTxid| == |vMatch| == t.n && pos < Width(t.n, height) && height > 0
             && c1 == c.(bitsUsed := c.bitsUsed + 1)
    requires AnyMatch(vMatch, First(height, pos), Last(t.n, height, pos))
             && BuiltAt(h, t, vTxid, vMatch, height, pos, c)
    ensures c.bitsUsed < |t.bits| && t.bits[c.bitsUsed]
    ensures pos * 2 < Width(t.n, height - 1) && BuiltAt(h, t, vTxid, vMatch, height - 1, pos * 2, c1)
    ensures HasRight(t.n, height, pos) ==>
              BuiltAt(h, t, vTxid, vMatch, height - 1, pos * 2 + 1, After(h, vTxid, vMatch, height - 1, pos * 2, c1))
  {
    hide At, Width, BuildHashes, MatchedIds, MatchedPositions;
    AtHead(t.bits, c.bitsUsed, BuildBits(height, pos, vMatch));
    BitsSplit(t.bits, vMatch, height, pos, c.bitsUsed);
    HashesSplit(h, t.hashes, vTxid, vMatch, height, pos, c.hashUsed);
  }

  /** Extracting a built subtree gives the block's node hash and exactly the matches below it, in order. */
  lemma {:induction false} ExtractBuilt(h: PairHash, t: Tree, vTxid: seq<Hash>, vMatch: seq<bool>, height: nat,
                                        pos: nat, c: Cursor, pairs: set<(Hash, Hash)>)
    requires |vTxid| == |vMatch| == t.n && pos < Width(t.n, height) && !c.bad && Distinct(vTxid)
    requires NoCollision(h, pairs) && TreeWithin(h, height, pos, vTxid, pairs)
             && BuiltAt(h, t, vTxid, vMatch, height, pos, c)
    ensures Extracted(h, t, vTxid, vMatch, height, pos, c)
  {
    hide Width, Extracted, BuiltAt, TreeWithin, NoCollision;
    if height == 0 || !AnyMatch(vMatch, First(height, pos), Last(t.n, height, pos)) {
      LeafExtracted(h, t, vTxid, vMatch, height, pos, c);
    } else {
      var c1 := c.(bitsUsed := c.bitsUsed + 1);
      BuiltSplit(h, t, vTxid, vMatch, height, pos, c, c1);
      TreeSplit(h, height, pos, vTxid, pairs);
      var cl := After(h, vTxid, vMatch, height - 1, pos * 2, c1);
      ExtractBuilt(h, t, vTxid, vMatch, height - 1, pos * 2, c1, pairs);
      if HasRight(t.n, height, pos) {
        ExtractBuilt(h, t, vTxid, vMatch, height - 1, pos * 2 + 1, cl, pairs);
        SiblingsDiffer(h, height, pos, vTxid, pairs);
      }
      NodeExtracted(h, t, vTxid, vMatch, height, pos, c, c1, cl);
    }
  }

  // ------------------------------------------------------------ sizes

  lemma {:induction false} SomeMatch(vMatch: seq<bool>, lo: nat, hi: nat)
    requires hi <= |vMatch| && AnyMatch(vMatch, lo, hi)
    ensures |MatchedPositions(vMatch, lo, hi)| >= 1
    decreases hi - lo
  {
    if lo < hi && !vMatch[lo] { SomeMatch(vMatch, lo + 1, hi); }
  }

  /** 1 + a(h - 1) and 1 + b(h - 1) make at most 1 + (a + b)h. */
  lemma BoundStep(a: nat, b: nat, height: nat)
    requires height > 0 && a + b >= 1
    ensures 1 + a * (height - 1) + 1 + b * (height - 1) <= 1 + (a + b) * height
    ensures 1 + a * (height - 1) <= 1 + (a + b) * height
  {
    assert a * (height - 1) + b * (height - 1) + (a + b) == (a + b) * height;
    assert b * (height - 1) >= 0;
  }

  /** A node stores at most one hash per leaf below it, and at least one flag bit per hash. */
  lemma {:induction false} BuiltSizes(h: PairHash, vTxid: seq<Hash>, vMatch: seq<bool>, height: nat, pos: nat)
    requires |vTxid| == |vMatch| && pos < Width(|vTxid|, height)
    ensures var k := |BuildHashes(h, height, pos, vTxid, vMatch)|;
            First(height, pos) + k <= Last(|vTxid|, height, pos) && k <= |BuildBits(height, pos, vMatch)|
  {
    hide Width;
    var n := |vTxid|;
    if height == 0 || !AnyMatch(vMatch, First(height, pos), Last(n, height, pos)) {
      WidthIff(n, height, pos);
      MulLe(pos, pos, Pow2(height));
    } else {
      Children(n, height, pos);
      Ranges(n, height, pos);
      BuiltSizes(h, vTxid, vMatch, height - 1, pos * 2);
      if HasRight(n, height, pos) { BuiltSizes(h, vTxid, vMatch, height - 1, pos * 2 + 1); }
    }
  }

  /** A node stores at most 1 + matched * height hashes. */
  lemma {:induction false} BuiltPerMatch(h: PairHash, vTxid: seq<Hash>, vMatch: seq<bool>, height: nat, pos: nat)
    requires |vTxid| == |vMatch| && pos < Width(|vTxid|, height)
    ensures var matched := |MatchedPositions(vMatch, First(height, pos), Last(|vTxid|, height, pos))|;
            |BuildHashes(h, height, pos, vTxid, vMatch)| <= 1 + matched * height
  {
    hide Width;
    var n := |vTxid|;
    var lo, hi := First(height, pos), Last(n, height, pos);
    var m := |MatchedPositions(vMatch, lo, hi)|;
    if height == 0 || !AnyMatch(vMatch, lo, hi) {
      assert m * height >= 0;
    } else {
      Children(n, height, pos);
      Ranges(n, height, pos);
      var mid := Last(n, height - 1, pos * 2);
      var a, b := |MatchedPositions(vMatch, lo, mid)|, |MatchedPositions(vMatch, mid, hi)|;
      assert m == a + b by { PositionsSplit(vMatch, lo, mid, hi); }
      assert m >= 1 by { SomeMatch(vMatch, lo, hi); }
      BoundStep(a, b, height);
      BuiltPerMatch(h, vTxid, vMatch, height - 1, pos * 2);
      if HasRight(n, height, pos) { BuiltPerMatch(h, vTxid, vMatch, height - 1, pos * 2 + 1); }
    }
  }

  /** The tree the constructor builds. */
  function Built(h: PairHash, vTxid: seq<Hash>, vMatch: seq<bool>): Tree
    requires |vTxid| == |vMatch| > 0
  {
    var H := TreeHeight(|vTxid|, 0);
    TreeHeightTop(|vTxid|, 0);
    Tree(|vTxid|, BuildBits(H, 0, vMatch), BuildHashes(h, H, 0, vTxid, vMatch))
  }

  /** What a built tree stores is small. */
  lemma BuiltBound(h: PairHash, vTxid: seq<Hash>, vMatch: seq<bool>)
    requires |vTxid| == |vMatch| > 0
    ensures var t := Built(h, vTxid, vMatch);
            && |t.hashes| <= t.n && |t.hashes| <= |t.bits|
            && |t.hashes| <= 1 + |MatchedPositions(vMatch, 0, t.n)| * TreeHeight(t.n, 0)
  {
    TreeHeightTop(|vTxid|, 0);
    Whole(|vTxid|);
    BuiltSizes(h, vTxid, vMatch, TreeHeight(|vTxid|, 0), 0);
    BuiltPerMatch(h, vTxid, vMatch, TreeHeight(|vTxid|, 0), 0);
  }

  lemma Whole(n: nat)
    requires n > 0
    ensures First(TreeHeight(n, 0), 0) == 0 && Last(n, TreeHeight(n, 0), 0) == n
  {
    TreeHeightTop(n, 0);
    WidthIff(n, TreeHeight(n, 0), 1);
  }

  // ------------------------------------------------------------ bits in bytes

  /** `bytes` holds `bits` eight to a byte, least significant bit first, padded with false. */
  ghost predicate Packs(bytes: seq<bv8>, bits: seq<bool>) {
    && |bytes| == (|bits| + 7) / 8
    && forall p {:trigger PackedBit(bytes, bits, p)} :: 0 <= p < 8 * |bytes| ==> PackedBit(bytes, bits, p)
  }

  ghost predicate PackedBit(bytes: seq<bv8>, bits: seq<bool>, p: nat)
    requires p < 8 * |bytes|
  {
    Bit(bytes[p / 8], p % 8) == (p < |bits| && bits[p])
  }

  ghost predicate Unpacks(bytes: seq<bv8>, bits: seq<bool>) {
    |bits| == 8 * |bytes|
        && forall p {:trigger PackedBit(bytes, bits, p)} :: 0 <= p < |bits| ==> PackedBit(bytes, bits, p)
  }

  /** Unpacking gives back the packed bits, followed by fewer than eight padding bits, all false. */
  lemma UnpackPacked(bytes: seq<bv8>, bits: seq<bool>, bits': seq<bool>)
    requires Packs(bytes, bits) && Unpacks(bytes, bits')
    ensures bits <= bits' && |bits'| < |bits| + 8
    ensures forall p :: |bits| <= p < |bits'| ==> !bits'[p]
  {
    forall p | 0 <= p < |bits'|
      ensures bits'[p] == (p < |bits| && bits[p])
    {
      assert PackedBit(bytes, bits, p) && PackedBit(bytes, bits', p);
    }
  }

  /** The write side of SerializationOp. */
  method PackBits(vBits: seq<bool>) returns (vBytes: seq<bv8>)
    ensures Packs(vBytes, vBits)
  {
    var buffer := new bv8[(|vBits| + 7) / 8](_ => 0);
    forall k | 0 <= k < 8 * buffer.Length
      ensures !Bit(buffer[k / 8], k % 8)
    {
    }
    hide Bit, Mask;
    var p := 0;
    while p < |vBits|
      invariant 0 <= p <= |vBits|
      invariant forall k {:trigger PackedBit(buffer[..], vBits[..p], k)} :: 0 <= k < 8 * buffer.Length ==>
                  PackedBit(buffer[..], vBits[..p], k)
    {
      ghost var was, next := buffer[..], vBits[..p + 1];
      if vBits[p] { buffer[p / 8] := buffer[p / 8] | Mask(p % 8); }
      forall k | 0 <= k < 8 * buffer.Length
        ensures PackedBit(buffer[..], next, k)
      {
        assert PackedBit(was, vBits[..p], k);
        if k / 8 == p / 8 { SetBit(was[p / 8], p % 8, k % 8); }
      }
      p := p + 1;
    }
    assert vBits[..p] == vBits;
    vBytes := buffer[..];
  }

  /** The read side of SerializationOp. */
  method UnpackBits(vBytes: seq<bv8>) returns (vBits: seq<bool>)
    ensures Unpacks(vBytes, vBits)
  {
    var bits := new bool[|vBytes| * 8];
    var p := 0;
    while p < bits.Length
      invariant 0 <= p <= bits.Length
      invariant forall k :: 0 <= k < p ==> Bit(vBytes[k / 8], k % 8) == bits[k]
    {
      bits[p] := vBytes[p / 8] & Mask(p % 8) != 0;
      p := p + 1;
    }
    vBits := bits[..];
    assert forall k :: 0 <= k < |vBits| ==> vBits[k] == bits[k];
  }

  /** Building a tree from distinct ids, packing its bits into bytes, unpacking them and extracting
      gives the true root and exactly the matched ids and positions, in order. */
  lemma BuildPackExtract(h: PairHash, vTxid: seq<Hash>, vMatch: seq<bool>, bytes: seq<bv8>, bits': seq<bool>,
                         pairs: set<(Hash, Hash)>)
    requires 0 < |vTxid| == |vMatch| <= MAX_BLOCK_BASE_SIZE / 60 && Distinct(vTxid)
    requires NoCollision(h, pairs) && BlockWithin(h, vTxid, pairs)
    requires Packs(bytes, Built(h, vTxid, vMatch).bits) && Unpacks(bytes, bits')
    ensures MatchesOf(h, Built(h, vTxid, vMatch).(bits := bits'), false, []) ==
            (MerkleRoot(h, vTxid), MatchedIds(vTxid, vMatch, 0, |vTxid|), MatchedPositions(vMatch, 0, |vTxid|), false)
  {
    TreeHeightTop(|vTxid|, 0);
    var t, H, c := Built(h, vTxid, vMatch), TreeHeight(|vTxid|, 0), Cursor(0, 0, false, [], []);
    UnpackPacked(bytes, t.bits, bits');
    BuiltBound(h, vTxid, vMatch);
    Prefix(t.bits, bits');
    Prefix(t.hashes, t.hashes);
    ExtractBuilt(h, t.(bits := bits'), vTxid, vMatch, H, 0, c, pairs);
    RootExtracted(h, vTxid, vMatch, t.(bits := bits'), c);
  }

  lemma Prefix<T>(a: seq<T>, b: seq<T>)
    requires a <= b
    ensures At(b, 0, a)
  {
  }

  lemma RootExtracted(h: PairHash, vTxid: seq<Hash>, vMatch: seq<bool>, t: Tree, c: Cursor)
    requires |vTxid| == |vMatch| > 0 && Width(|vTxid|, TreeHeight(|vTxid|, 0)) == 1
    requires t.n == |vTxid| && t.hashes == Built(h, vTxid, vMatch).hashes && Plausible(t)
             && c == Cursor(0, 0, false, [], [])
    requires Extracted(h, t, vTxid, vMatch, TreeHeight(|vTxid|, 0), 0, c)
    requires (|t.bits| + 7) / 8 == (|Built(h, vTxid, vMatch).bits| + 7) / 8
    ensures MatchesOf(h, t, false, []) ==
            (MerkleRoot(h, vTxid), MatchedIds(vTxid, vMatch, 0, |vTxid|), MatchedPositions(vMatch, 0, |vTxid|), false)
  {
    Whole(|vTxid|);
    var ids, idx := MatchedIds(vTxid, vMatch, 0, |vTxid|), MatchedPositions(vMatch, 0, |vTxid|);
    assert c.vMatch + ids == ids && c.vnIndex + idx == idx;
  }

  // ------------------------------------------------------------ the class

  lemma Appended<T>(s: seq<T>, x: T, a: seq<T>, b: seq<T>)
    ensures s + [x] + a + b == s + ([x] + a + b) && s + [x] + a + [] == s + [x] + a
  {
  }

  lemma Joined<T>(s: seq<T>, a: seq<T>, b: seq<T>)
    ensures s + a + b == s + (a + b) && s + a + [] == s + a
  {
  }

  class CPartialMerkleTree {
    const hash: PairHash
    var nTransactions: nat
    var vBits: seq<bool>
    var vHash: seq<Hash>
    var fBad: bool

    function Value(): Tree
      reads this
    {
      Tree(nTransactions, vBits, vHash)
    }

    constructor (hash: PairHash, vTxid: seq<Hash>, vMatch: seq<bool>)
      requires |vTxid| == |vMatch| > 0
      ensures this.hash == hash && !fBad && Value() == Built(hash, vTxid, vMatch)
    {
      this.hash := hash;
      nTransactions, fBad := |vTxid|, false;
      vBits, vHash := [], [];
      new;
      var nHeight := CalcHeight();
      TreeHeightTop(|vTxid|, 0);
      TraverseAndBuild(nHeight, 0, vTxid, vMatch);
    }

    constructor Empty(hash: PairHash)
      ensures this.hash == hash && fBad && Value() == Tree(0, [], [])
    {
      this.hash := hash;
      nTransactions, fBad := 0, true;
      vBits, vHash := [], [];
    }

    method CalcHeight() returns (nHeight: nat)
      ensures nHeight == TreeHeight(nTransactions, 0)
    {
      nHeight := 0;
      while Width(nTransactions, nHeight) > 1
        invariant TreeHeight(nTransactions, nHeight) == TreeHeight(nTransactions, 0)
        decreases if nTransactions > Pow2(nHeight) then nTransactions - Pow2(nHeight) else 0
      {
        WidthIff(nTransactions, nHeight, 1);
        nHeight := nHeight + 1;
      }
    }

    method ParentOfMatch(height: nat, pos: nat, vMatch: seq<bool>) returns (fParentOfMatch: bool)
      requires |vMatch| == nTransactions
      ensures fParentOfMatch == AnyMatch(vMatch, First(height, pos), Last(nTransactions, height, pos))
    {
      fParentOfMatch := false;
      var p, end := pos * Pow2(height), (pos + 1) * Pow2(height);
      MulLe(pos, pos, Pow2(height));
      while p < end && p < nTransactions
        invariant First(height, pos) <= p <= end && (p <= nTransactions || p == First(height, pos))
        invariant fParentOfMatch == AnyMatch(vMatch, First(height, pos), Min(p, nTransactions))
      {
        fParentOfMatch := fParentOfMatch || vMatch[p];
        p := p + 1;
      }
    }

    method TraverseAndBuild(height: nat, pos: nat, vTxid: seq<Hash>, vMatch: seq<bool>)
      requires |vTxid| == |vMatch| == nTransactions && pos < Width(nTransactions, height)
      modifies this`vBits, this`vHash
      ensures vBits == old(vBits) + BuildBits(height, pos, vMatch)
      ensures vHash == old(vHash) + BuildHashes(hash, height, pos, vTxid, vMatch)
      decreases height
    {
      hide Width;
      var fParentOfMatch := ParentOfMatch(height, pos, vMatch);
      vBits := vBits + [fParentOfMatch];
      if height == 0 || !fParentOfMatch {
        vHash := vHash + [CalcHash(hash, height, pos, vTxid)];
      } else {
        Children(nTransactions, height, pos);
        TraverseAndBuild(height - 1, pos * 2, vTxid, vMatch);
        if pos * 2 + 1 < Width(nTransactions, height - 1) {
          TraverseAndBuild(height - 1, pos * 2 + 1, vTxid, vMatch);
        }
        ghost var right := pos * 2 + 1 < Width(nTransactions, height - 1);
        Appended(old(vBits), true, BuildBits(height - 1, pos * 2, vMatch),
            if right then BuildBits(height - 1, pos * 2 + 1, vMatch) else []);
        Joined(old(vHash), BuildHashes(hash, height - 1, pos * 2, vTxid, vMatch),
               if right then BuildHashes(hash, height - 1, pos * 2 + 1, vTxid, vMatch) else []);
      }
    }

    method TraverseAndExtract(height: nat, pos: nat, nBitsUsed: nat, nHashUsed: nat, vMatch: seq<Hash>,
                              vnIndex: seq<nat>)
      returns (node: Hash, nBitsUsed': nat, nHashUsed': nat, vMatch': seq<Hash>, vnIndex': seq<nat>)
      modifies this`fBad
      ensures (node, Cursor(nBitsUsed', nHashUsed', fBad, vMatch', vnIndex')) ==
              Extract(hash, Value(), height, pos, Cursor(nBitsUsed, nHashUsed, old(fBad), vMatch, vnIndex))
      decreases height
    {
      hide Width;
      nBitsUsed', nHashUsed', vMatch', vnIndex' := nBitsUsed, nHashUsed, vMatch, vnIndex;
      if nBitsUsed >= |vBits| {
        fBad := true;
        return ZERO, nBitsUsed', nHashUsed', vMatch', vnIndex';
      }
      var fParentOfMatch := vBits[nBitsUsed];
      nBitsUsed' := nBitsUsed + 1;
      if height == 0 || !fParentOfMatch {
        if nHashUsed >= |vHash| {
          fBad := true;
          return ZERO, nBitsUsed', nHashUsed', vMatch', vnIndex';
        }
        node := vHash[nHashUsed];
        nHashUsed' := nHashUsed + 1;
        if height == 0 && fParentOfMatch {
          vMatch' := vMatch + [node];
          vnIndex' := vnIndex + [pos];
        }
      } else {
        var left, right;
        left, nBitsUsed', nHashUsed', vMatch', vnIndex' :=
          TraverseAndExtract(height - 1, pos * 2, nBitsUsed', nHashUsed', vMatch', vnIndex');
        if pos * 2 + 1 < Width(nTransactions, height - 1) {
          right, nBitsUsed', nHashUsed', vMatch', vnIndex' :=
            TraverseAndExtract(height - 1, pos * 2 + 1, nBitsUsed', nHashUsed', vMatch', vnIndex');
          if right == left { fBad := true; }
        } else {
          right := left;
        }
        node := hash(left, right);
      }
    }

    /** The list of matches is cleared first; the list of indices is only extended. */
    method ExtractMatches(vnIndex: seq<nat>) returns (root: Hash, vMatch: seq<Hash>, vnIndex': seq<nat>)
      modifies this`fBad
      ensures (root, vMatch, vnIndex', fBad) == MatchesOf(hash, Value(), old(fBad), vnIndex)
    {
      vMatch, vnIndex' := [], vnIndex;
      if nTransactions == 0 { return ZERO, vMatch, vnIndex'; }
      if nTransactions > MAX_BLOCK_BASE_SIZE / 60 { return ZERO, vMatch, vnIndex'; }
      if |vHash| > nTransactions { return ZERO, vMatch, vnIndex'; }
      if |vBits| < |vHash| { return ZERO, vMatch, vnIndex'; }
      var nHeight := CalcHeight();
      var nBitsUsed, nHashUsed;
      root, nBitsUsed, nHashUsed, vMatch, vnIndex' := TraverseAndExtract(nHeight, 0, 0, 0, vMatch, vnIndex');
      if fBad { return ZERO, vMatch, vnIndex'; }
      if (nBitsUsed + 7) / 8 != (|vBits| + 7) / 8 { return ZERO, vMatch, vnIndex'; }
      if nHashUsed != |vHash| { return ZERO, vMatch, vnIndex'; }
    }

    /** What SerializationOp writes. */
    method Serialize() returns (n: nat, hashes: seq<Hash>, vBytes: seq<bv8>)
      ensures n == nTransactions && hashes == vHash && Packs(vBytes, vBits)
    {
      vBytes := PackBits(vBits);
      n, hashes := nTransactions, vHash;
    }

    /** What SerializationOp reads. */
    method Unserialize(n: nat, hashes: seq<Hash>, vBytes: seq<bv8>)
      modifies this
      ensures nTransactions == n && vHash == hashes && Unpacks(vBytes, vBits) && !fBad
    {
      nTransactions, vHash := n, hashes;
      vBits := UnpackBits(vBytes);
      fBad := false;
    }
  }

  /** Over the wire: what one node builds and sends, another node extracts. */
  method RelayMatches(hash: PairHash, vTxid: seq<Hash>, vMatch: seq<bool>, ghost pairs: set<(Hash, Hash)>)
    returns (root: Hash, ids: seq<Hash>, idx: seq<nat>)
    requires 0 < |vTxid| == |vMatch| <= MAX_BLOCK_BASE_SIZE / 60 && Distinct(vTxid)
    requires NoCollision(hash, pairs) && BlockWithin(hash, vTxid, pairs)
    ensures root == MerkleRoot(hash, vTxid)
    ensures ids == MatchedIds(vTxid, vMatch, 0, |vTxid|) && idx == MatchedPositions(vMatch, 0, |vTxid|)
  {
    var sender := new CPartialMerkleTree(hash, vTxid, vMatch);
    var n, hashes, vBytes := sender.Serialize();
    var receiver := new CPartialMerkleTree.Empty(hash);
    receiver.Unserialize(n, hashes, vBytes);
    BuildPackExtract(hash, vTxid, vMatch, vBytes, receiver.vBits, pairs);
    root, ids, idx := receiver.ExtractMatches([]);
  }
}
