/** The merged-mining check: a Merkle branch ties the auxiliary block to a root written in the
    parent coinbase, at a slot fixed by a nonce and the chain id. A hash is its 32 bytes; the
    pair hash is a parameter, and "no collision" is asked only of the pairs hashed on the way. */
module AuxPow {

  import opened Powers

  type Hash = h: seq<nat> | |h| == 32 witness NullBytes()
  type PairHash = (Hash, Hash) -> Hash

  const NULL_HASH: Hash := NullBytes()
  function NullBytes(): seq<nat> {
    [0, 0, 0, 0, 0, 0, 0, 0, 0, 0, 0, 0, 0, 0, 0, 0, 0, 0, 0, 0, 0, 0, 0, 0, 0, 0, 0, 0, 0, 0, 0, 0]
  }

  const MERGED_MINING_HEADER: seq<nat> := [0xfa, 0xbe, 'm' as int, 'm' as int]
  const MAX_BRANCH: nat := 30
  const WORD: nat := 0x1_0000_0000

  // ------------------------------------------------------------ Merkle branches

  /** One step up a branch: the low bit of the index says on which side the running hash stands. */
  function Up(h: PairHash, hash: Hash, sibling: Hash, index: int): Hash {
    if index % 2 == 1 then h(sibling, hash) else h(hash, sibling)
  }

  function Climb(h: PairHash, hash: Hash, branch: seq<Hash>, index: int): Hash
    decreases |branch|
  {
    if branch == [] then hash else Climb(h, Up(h, hash, branch[0], index), branch[1..], index / 2)
  }

  /** What CheckMerkleBranch returns: index -1 marks an unset branch. */
  function BranchRoot(h: PairHash, hash: Hash, branch: seq<Hash>, index: int): Hash {
    if index == -1 then NULL_HASH else Climb(h, hash, branch, index)
  }

  method CheckMerkleBranch(h: PairHash, hash: Hash, vMerkleBranch: seq<Hash>, nIndex: int) returns (root: Hash)
    ensures root == BranchRoot(h, hash, vMerkleBranch, nIndex)
  {
    if nIndex == -1 { return NULL_HASH; }
    root := hash;
    var index, it := nIndex, 0;
    while it < |vMerkleBranch|
      invariant 0 <= it <= |vMerkleBranch|
      invariant Climb(h, root, vMerkleBranch[it..], index) == Climb(h, hash, vMerkleBranch, nIndex)
    {
      if index % 2 == 1 {
        root := h(vMerkleBranch[it], root);
      } else {
        root := h(root, vMerkleBranch[it]);
      }
      assert vMerkleBranch[it..][1..] == vMerkleBranch[it + 1..];
      index := index / 2;
      it := it + 1;
    }
  }

  ghost predicate NoCollision(h: PairHash, pairs: set<(Hash, Hash)>) {
    forall p, q :: p in pairs && q in pairs && h(p.0, p.1) == h(q.0, q.1) ==> p == q
  }

  /** `pairs` holds every pair hashed in climbing a branch. */
  ghost predicate ClimbWithin(h: PairHash, hash: Hash, branch: seq<Hash>, index: int, pairs: set<(Hash, Hash)>)
    decreases |branch|
  {
    branch == [] ||
    (&& (if index % 2 == 1 then (branch[0], hash) else (hash, branch[0])) in pairs
     && ClimbWithin(h, Up(h, hash, branch[0], index), branch[1..], index / 2, pairs))
  }

  /** Two branches of one length from one slot to one root are the same branch from the same leaf. */
  lemma {:induction false} ClimbInjective(h: PairHash, x: Hash, y: Hash, a: seq<Hash>, b: seq<Hash>, index: int,
                                          pairs: set<(Hash, Hash)>)
    requires |a| == |b| && Climb(h, x, a, index) == Climb(h, y, b, index) && NoCollision(h, pairs)
    requires ClimbWithin(h, x, a, index, pairs) && ClimbWithin(h, y, b, index, pairs)
    ensures x == y && a == b
    decreases |a|
  {
    if a != [] {
      var x', y' := Up(h, x, a[0], index), Up(h, y, b[0], index);
      ClimbInjective(h, x', y', a[1..], b[1..], index / 2, pairs);
      var p := if index % 2 == 1 then (a[0], x) else (x, a[0]);
      var q := if index % 2 == 1 then (b[0], y) else (y, b[0]);
      assert p in pairs && q in pairs && h(p.0, p.1) == h(q.0, q.1);
      assert a == [a[0]] + a[1..] && b == [b[0]] + b[1..];
    }
  }

  // ------------------------------------------------------------ full trees

  /** A node of the full Merkle tree over some chains' block hashes. */
  function Node(h: PairHash, leaves: seq<Hash>, height: nat, pos: nat): Hash
    requires (pos + 1) * Pow2(height) <= |leaves|
  {
    if height == 0 then leaves[pos] else
      Below(height, pos, |leaves|);
      h(Node(h, leaves, height - 1, 2 * pos), Node(h, leaves, height - 1, 2 * pos + 1))
  }

  lemma Below(height: nat, pos: nat, n: nat)
    requires height > 0 && (pos + 1) * Pow2(height) <= n
    ensures (2 * pos + 1) * Pow2(height - 1) <= (2 * pos + 2) * Pow2(height - 1) <= n
  {
    var p := Pow2(height - 1);
    assert (2 * pos + 2) * p == (pos + 1) * (2 * p);
    assert (2 * pos + 2) * p == (2 * pos + 1) * p + p;
  }

  /** A tree twice as high hashes the roots of its two halves, in order; the tree of one leaf is that leaf. */
  lemma HalvesInOrder(h: PairHash, left: seq<Hash>, right: seq<Hash>, height: nat)
    requires |left| == |right| == Pow2(height)
    ensures Pow2(height + 1) == |left + right|
    ensures Node(h, left + right, height + 1, 0) == h(Node(h, left, height, 0), Node(h, right, height, 0))
    ensures height == 0 ==> Node(h, left, height, 0) == left[0]
  {
    var all := left + right;
    Below(height + 1, 0, |all|);
    PartNode(h, all, left, height, 0, 0, 0);
    PartNode(h, all, right, height, 0, 1, Pow2(height));
  }

  /** A node of a part of the leaves is the node of all that is q places further. */
  lemma {:induction false} PartNode(h: PairHash, all: seq<Hash>, part: seq<Hash>, height: nat, pos: nat, q: nat,
                                    off: nat)
    requires off == q * Pow2(height) && |part| + off <= |all| && (pos + 1) * Pow2(height) <= |part|
    requires forall i :: 0 <= i < |part| ==> all[i + off] == part[i]
    ensures (pos + q + 1) * Pow2(height) <= |all|
    ensures Node(h, all, height, pos + q) == Node(h, part, height, pos)
    decreases height
  {
    PartFits(height, pos, q);
    if height > 0 {
      Below(height, pos, |part|);
      Below(height, pos + q, |all|);
      TwiceHalf(q, height);
      PartNode(h, all, part, height - 1, 2 * pos, 2 * q, off);
      PartNode(h, all, part, height - 1, 2 * pos + 1, 2 * q, off);
    }
  }

  lemma PartFits(height: nat, pos: nat, q: nat)
    ensures (pos + q + 1) * Pow2(height) == (pos + 1) * Pow2(height) + q * Pow2(height)
  {
  }

  lemma TwiceHalf(q: nat, height: nat)
    requires height > 0
    ensures 2 * q * Pow2(height - 1) == q * Pow2(height)
  {
  }

  /** A node's parent, and the other child of that parent. */
  lemma Above(height: nat, pos: nat, levels: nat, n: nat)
    requires levels > 0 && pos < Pow2(levels) && Pow2(height + levels) <= n
    ensures pos / 2 < Pow2(levels - 1)
    ensures (pos + 1) * Pow2(height) <= n && (pos / 2 + 1) * Pow2(height + 1) <= n
    ensures (Sibling(pos) + 1) * Pow2(height) <= n
  {
    Within(height, pos, levels, n);
    Within(height, Sibling(pos), levels, n);
    Within(height + 1, pos / 2, levels - 1, n);
  }

  lemma Within(height: nat, pos: nat, levels: nat, n: nat)
    requires pos < Pow2(levels) && Pow2(height + levels) <= n
    ensures (pos + 1) * Pow2(height) <= n
  {
    Pow2Add(levels, height);
    TimesLe(pos + 1, Pow2(levels), Pow2(height));
  }

  lemma TimesLe(a: nat, b: nat, c: nat)
    requires a <= b
    ensures a * c <= b * c
  {
  }

  function Sibling(pos: nat): nat { if pos % 2 == 1 then pos - 1 else pos + 1 }

  /** The branch from a node up to the root `levels` above it. */
  function BranchUp(h: PairHash, leaves: seq<Hash>, height: nat, pos: nat, levels: nat): seq<Hash>
    requires pos < Pow2(levels) && Pow2(height + levels) <= |leaves|
    decreases levels
  {
    if levels == 0 then [] else
      Above(height, pos, levels, |leaves|);
      [Node(h, leaves, height, Sibling(pos))] + BranchUp(h, leaves, height + 1, pos / 2, levels - 1)
  }

  /** Climbing a node's own branch reaches the root of the full tree. */
  lemma {:induction false} ClimbReachesRoot(h: PairHash, leaves: seq<Hash>, height: nat, pos: nat, levels: nat)
    requires pos < Pow2(levels) && Pow2(height + levels) <= |leaves| && (pos + 1) * Pow2(height) <= |leaves|
    ensures |BranchUp(h, leaves, height, pos, levels)| == levels
    ensures Climb(h, Node(h, leaves, height, pos), BranchUp(h, leaves, height, pos, levels), pos) ==
              Node(h, leaves, height + levels, 0)
    decreases levels
  {
    if levels > 0 {
      Above(height, pos, levels, |leaves|);
      var rest := BranchUp(h, leaves, height + 1, pos / 2, levels - 1);
      assert BranchUp(h, leaves, height, pos, levels)[1..] == rest;
      assert Up(h, Node(h, leaves, height, pos), Node(h, leaves, height, Sibling(pos)), pos)
          == Node(h, leaves, height + 1, pos / 2);
      ClimbReachesRoot(h, leaves, height + 1, pos / 2, levels - 1);
    }
  }

  // ------------------------------------------------------------ the slot of a chain

  /** The 32-bit generator step. */
  function Lcg(r: nat): nat { (r * 1103515245 + 12345) % WORD }

  function ExpectedSlot(nNonce: nat, nChainId: int, height: nat): nat {
    Lcg((Lcg(nNonce) + nChainId) % WORD) % Pow2(height)
  }

  lemma {:induction false} DividesWord(height: nat)
    requires height <= 32
    ensures WORD % Pow2(height) == 0
  {
    Pow2Add(32 - height, height);
    Pow2At32();
    MultipleMod(Pow2(32 - height), Pow2(height));
  }

  lemma MultipleMod(a: int, m: nat)
    requires m > 0
    ensures a * m % m == 0
  {
    ModShift(0, a, m);
  }

  /** Adding a multiple of m does not change the remainder. */
  lemma ModShift(x: int, k: int, m: nat)
    requires m > 0
    ensures (x + k * m) % m == x % m
  {
    var q, r := x / m, x % m;
    var q', r' := (x + k * m) / m, (x + k * m) % m;
    assert q' * m + r' == q * m + r + k * m;
    assert (q' - q - k) * m == r - r';
    Apart(q' - q - k, m);
  }

  /** Reducing modulo a multiple of m first does not change the remainder. */
  lemma ModOfMod(x: int, big: nat, m: nat)
    requires m > 0 && big > 0 && big % m == 0
    ensures x % big % m == x % m
  {
    var k, q := big / m, x / big;
    assert big == k * m;
    assert x == x % big + q * (k * m);
    assert q * (k * m) == q * k * m;
    ModShift(x % big, q * k, m);
  }

  /** A linear step modulo m depends only on the argument modulo m. */
  lemma LinearMod(x: int, y: int, a: int, c: int, m: nat)
    requires m > 0 && x % m == y % m
    ensures (x * a + c) % m == (y * a + c) % m
  {
    var k := x / m - y / m;
    assert x == y + k * m;
    assert x * a + c == y * a + c + (k * a) * m by { Distribute(y, k, m, a); }
    ModShift(y * a + c, k * a, m);
  }

  lemma Distribute(y: int, k: int, m: int, a: int)
    ensures (y + k * m) * a == y * a + (k * a) * m
  {
    assert (y + k * m) * a == y * a + k * m * a;
    assert k * m * a == k * a * m;
  }

  /** The 32-bit wrap-around is invisible: for every height up to 32 the slot is what unbounded
      arithmetic gives, so it is the same whatever the word size. */
  lemma SlotUnbounded(nNonce: nat, nChainId: int, height: nat)
    requires height <= 32
    ensures ExpectedSlot(nNonce, nChainId, height) ==
            ((nNonce * 1103515245 + 12345 + nChainId) * 1103515245 + 12345) % Pow2(height)
  {
    var m, x := Pow2(height), nNonce * 1103515245 + 12345;
    DividesWord(height);
    var y := Lcg(nNonce) + nChainId;
    ModOfMod(x, WORD, m);
    LinearMod(Lcg(nNonce), x, 1, nChainId, m);
    ModOfMod(y, WORD, m);
    assert y % WORD % m == (x + nChainId) % m;
    LinearMod(y % WORD, x + nChainId, 1103515245, 12345, m);
    ModOfMod(y % WORD * 1103515245 + 12345, WORD, m);
  }

  method GetExpectedIndex(nNonce: nat, nChainId: int, height: nat) returns (index: nat)
    ensures index == ExpectedSlot(nNonce, nChainId, height) < Pow2(height)
  {
    var rand := nNonce;
    rand := (rand * 1103515245 + 12345) % WORD;
    rand := (rand + nChainId) % WORD;
    rand := (rand * 1103515245 + 12345) % WORD;
    index := rand % Pow2(height);
  }

  // ------------------------------------------------------------ the check

  predicate Matches(script: seq<nat>, i: nat, pattern: seq<nat>) {
    i + |pattern| <= |script| && script[i..i + |pattern|] == pattern
  }

  /** std::search: the first place at or after `from` where the pattern stands, or the end. */
  function Search(script: seq<nat>, from: nat, pattern: seq<nat>): (i: nat)
    requires from <= |script|
    ensures from <= i <= |script|
    ensures i < |script| ==> Matches(script, i, pattern)
    ensures forall j :: from <= j < i ==> !Matches(script, j, pattern)
    decreases |script| - from
  {
    if from == |script| || Matches(script, from, pattern) then from else Search(script, from + 1, pattern)
  }

  function Reversed(s: seq<nat>): (r: seq<nat>)
    ensures |r| == |s|
  {
    if s == [] then [] else Reversed(s[1..]) + [s[0]]
  }

  lemma {:induction false} ReversedAt(s: seq<nat>, k: nat)
    requires k < |s|
    ensures Reversed(s)[k] == s[|s| - 1 - k]
  {
    if k < |s| - 1 { ReversedAt(s[1..], k); }
  }

  lemma {:induction false} ReversedInjective(a: seq<nat>, b: seq<nat>)
    requires Reversed(a) == Reversed(b)
    ensures a == b
  {
    assert |a| == |Reversed(a)| == |Reversed(b)| == |b|;
    if a != [] {
      var ra, rb := Reversed(a[1..]), Reversed(b[1..]);
      assert Reversed(a)[..|ra|] == ra && Reversed(b)[..|rb|] == rb;
      assert Reversed(a)[|ra|] == a[0] && Reversed(b)[|rb|] == b[0];
      ReversedInjective(a[1..], b[1..]);
      assert a == [a[0]] + a[1..] && b == [b[0]] + b[1..];
    }
  }

  /** Four bytes read as a little-endian number. */
  function ReadWord(s: seq<nat>, i: nat): nat
    requires i + 4 <= |s|
  {
    s[i] + 0x100 * s[i + 1] + 0x1_0000 * s[i + 2] + 0x100_0000 * s[i + 3]
  }

  /** The proof that comes with a merge-mined block. */
  datatype Proof = Proof(
    coinbaseHash: Hash,
    scriptSig: seq<nat>,
    vMerkleBranch: seq<Hash>,
    nIndex: int,
    vChainMerkleBranch: seq<Hash>,
    nChainIndex: int,
    parentRoot: Hash,
    parentChainId: int)

  function ChainRoot(h: PairHash, a: Proof, hashAuxBlock: Hash): seq<nat> {
    Reversed(BranchRoot(h, hashAuxBlock, a.vChainMerkleBranch, a.nChainIndex))
  }

  function Header(script: seq<nat>): nat { Search(script, 0, MERGED_MINING_HEADER) }

  /** With a merged-mining header: there is one only, and the chain root stands right after it.
      Without: the chain root starts within the first 20 bytes. */
  predicate RootPlaced(script: seq<nat>, pc: nat) {
    var head := Header(script);
    if head < |script| then
      Search(script, head + 1, MERGED_MINING_HEADER) == |script| && head + |MERGED_MINING_HEADER| == pc
    else pc <= 20
  }

  /** The size and nonce after the chain root agree with the branch and the slot. */
  predicate SlotAgrees(a: Proof, nChainId: int, pc: nat) {
    && pc + 8 <= |a.scriptSig|
    && ReadWord(a.scriptSig, pc) == Pow2(|a.vChainMerkleBranch|)
    && a.nChainIndex == ExpectedSlot(ReadWord(a.scriptSig, pc + 4), nChainId, |a.vChainMerkleBranch|)
  }

  /** CAuxPow::check */
  predicate Passes(h: PairHash, a: Proof, hashAuxBlock: Hash, nChainId: int, fStrictChainId: bool) {
    && a.nIndex == 0
    && !(fStrictChainId && a.parentChainId == nChainId)
    && |a.vChainMerkleBranch| <= MAX_BRANCH
    && BranchRoot(h, a.coinbaseHash, a.vMerkleBranch, a.nIndex) == a.parentRoot
    && var pc := Search(a.scriptSig, 0, ChainRoot(h, a, hashAuxBlock));
    && pc < |a.scriptSig|
    && RootPlaced(a.scriptSig, pc)
    && SlotAgrees(a, nChainId, pc + 32)
  }

  method Check(h: PairHash, a: Proof, hashAuxBlock: Hash, nChainId: int, fStrictChainId: bool) returns (ok: bool)
    ensures ok == Passes(h, a, hashAuxBlock, nChainId, fStrictChainId)
  {
    hide Pow2, Reversed, ExpectedSlot, Search, BranchRoot, ReadWord;
    if a.nIndex != 0 { return false; }
    if fStrictChainId && a.parentChainId == nChainId { return false; }
    if |a.vChainMerkleBranch| > MAX_BRANCH { return false; }
    var nRootHash := CheckMerkleBranch(h, hashAuxBlock, a.vChainMerkleBranch, a.nChainIndex);
    var vchRootHash := Reversed(nRootHash);
    var parent := CheckMerkleBranch(h, a.coinbaseHash, a.vMerkleBranch, a.nIndex);
    if parent != a.parentRoot { return false; }
    var script := a.scriptSig;
    var pcHead := Search(script, 0, MERGED_MINING_HEADER);
    var pc := Search(script, 0, vchRootHash);
    if pc == |script| { return false; }
    if pcHead != |script| {
      if Search(script, pcHead + 1, MERGED_MINING_HEADER) != |script| { return false; }
      if pcHead + |MERGED_MINING_HEADER| != pc { return false; }
    } else {
      if pc > 20 { return false; }
    }
    pc := pc + |vchRootHash|;
    if |script| - pc < 8 { return false; }
    var nSize := ReadWord(script, pc);
    var merkleHeight := |a.vChainMerkleBranch|;
    if nSize != Pow2(merkleHeight) { return false; }
    var nNonce := ReadWord(script, pc + 4);
    var expected := GetExpectedIndex(nNonce, nChainId, merkleHeight);
    if a.nChainIndex != expected { return false; }
    return true;
  }

  // ------------------------------------------------------------ what passing means

  /** The merged-mining header stands somewhere in the script. */
  ghost predicate HasHeader(script: seq<nat>) { exists j: nat :: Matches(script, j, MERGED_MINING_HEADER) }

  /** The chain root stands at pc and not before. With a header, its only one stands right before; without, pc is among
      the first 20 places. */
  ghost predicate RootAt(script: seq<nat>, root: seq<nat>, pc: nat) {
    && Matches(script, pc, root) && (forall j: nat :: j < pc ==> !Matches(script, j, root))
    && (forall j: nat :: Matches(script, j, MERGED_MINING_HEADER) ==> j + 4 == pc)
    && (HasHeader(script) || pc <= 20)
  }

  /** After the root come, in little-endian order, the size of a tree as high as the branch is long, and a nonce from
      which the generator gives the slot. */
  ghost predicate SlotAt(script: seq<nat>, pc: nat, height: nat, slot: int, nChainId: int) {
    && pc + 40 <= |script|
    && script[pc + 32] + 256 * (script[pc + 33] + 256 * (script[pc + 34] + 256 * script[pc + 35])) == Pow2(height)
    && var nonce := script[pc + 36] + 256 * (script[pc + 37] + 256 * (script[pc + 38] + 256 * script[pc + 39]));
       slot == ((nonce * 1103515245 + 12345 + nChainId) * 1103515245 + 12345) % Pow2(height)
  }

  /** A proof passes exactly if the coinbase is the parent's first transaction, the parent is of another chain where
      that is asked for, the branch has at most 30 hashes, the coinbase climbs to the parent's root, and its script
      commits to what the block climbs to, at the slot of this chain. */
  lemma PassesIff(h: PairHash, a: Proof, x: Hash, nChainId: int, strict: bool)
    ensures Passes(h, a, x, nChainId, strict) <==>
            && a.nIndex == 0 && (strict ==> a.parentChainId != nChainId) && |a.vChainMerkleBranch| <= 30
            && Climb(h, a.coinbaseHash, a.vMerkleBranch, 0) == a.parentRoot
            && exists pc: nat :: RootAt(a.scriptSig, ChainRoot(h, a, x), pc)
                                 && SlotAt(a.scriptSig, pc, |a.vChainMerkleBranch|, a.nChainIndex, nChainId)
  {
    hide Climb, Pow2, Reversed, Search, ExpectedSlot, RootAt, SlotAt, RootPlaced, SlotAgrees;
    var script, root, height := a.scriptSig, ChainRoot(h, a, x), |a.vChainMerkleBranch|;
    var pc := Search(script, 0, root);
    RootPlacedIff(script, root);
    if height <= 30 { SlotAgreesIff(a, nChainId, pc); }
    forall pc': nat | RootAt(script, root, pc') ensures pc' == pc { FirstPlace(script, root, pc'); }
  }

  lemma FirstPlace(script: seq<nat>, root: seq<nat>, pc: nat)
    requires RootAt(script, root, pc) && root != []
    ensures pc == Search(script, 0, root) < |script|
  {
  }

  lemma RootPlacedIff(script: seq<nat>, root: seq<nat>)
    requires root != []
    ensures var pc := Search(script, 0, root);
            RootAt(script, root, pc) <==> pc < |script| && RootPlaced(script, pc)
  {
    hide Search;
    var head := Header(script);
    assert head < |script| ==> Matches(script, head, MERGED_MINING_HEADER);
    assert forall j: nat :: Matches(script, j, MERGED_MINING_HEADER) ==> head <= j < |script|;
  }

  lemma SlotAgreesIff(a: Proof, nChainId: int, pc: nat)
    requires |a.vChainMerkleBranch| <= 30
    ensures SlotAgrees(a, nChainId, pc + 32) <==>
            SlotAt(a.scriptSig, pc, |a.vChainMerkleBranch|, a.nChainIndex, nChainId)
  {
    hide Pow2, ExpectedSlot;
    if pc + 40 <= |a.scriptSig| {
      SlotUnbounded(ReadWord(a.scriptSig, pc + 36), nChainId, |a.vChainMerkleBranch|);
    }
  }

  /** So a proof ties the block to the parent block: where the parent's root is that of a full tree of transactions, and
      nothing hashed on the way collides, the coinbase is the first of them, with its own branch. */
  lemma CoinbaseInParent(h: PairHash, a: Proof, x: Hash, nChainId: int, strict: bool, leaves: seq<Hash>,
                         pairs: set<(Hash, Hash)>)
    requires Passes(h, a, x, nChainId, strict)
    requires |leaves| == Pow2(|a.vMerkleBranch|) && a.parentRoot == Node(h, leaves, |a.vMerkleBranch|, 0)
    requires NoCollision(h, pairs) && ClimbWithin(h, a.coinbaseHash, a.vMerkleBranch, 0, pairs)
    requires ClimbWithin(h, leaves[0], BranchUp(h, leaves, 0, 0, |a.vMerkleBranch|), 0, pairs)
    ensures a.coinbaseHash == leaves[0] && a.vMerkleBranch == BranchUp(h, leaves, 0, 0, |a.vMerkleBranch|)
  {
    hide Pow2, Reversed, ExpectedSlot, Search;
    var n := |a.vMerkleBranch|;
    LeafNode(h, leaves, 0);
    ClimbReachesRoot(h, leaves, 0, 0, n);
    ClimbInjective(h, a.coinbaseHash, leaves[0], a.vMerkleBranch, BranchUp(h, leaves, 0, 0, n), 0, pairs);
  }

  lemma SamePower(a: nat, b: nat)
    requires Pow2(a) == Pow2(b)
    ensures a == b
  {
    if a < b { Pow2Grows(a, b); }
    if b < a { Pow2Grows(b, a); }
  }

  /** For one parent coinbase script that holds the merged-mining header, and one chain id, at most one
      auxiliary block hash passes, whatever branches and whatever parent block come with it. The chain branch
      and slot are then the same too. */
  lemma OneAuxBlock(h: PairHash, a: Proof, b: Proof, x: Hash, y: Hash, nChainId: int, strict: bool, strict': bool,
                    pairs: set<(Hash, Hash)>)
    requires Passes(h, a, x, nChainId, strict) && Passes(h, b, y, nChainId, strict')
    requires a.scriptSig == b.scriptSig && Header(a.scriptSig) < |a.scriptSig|
    requires NoCollision(h, pairs)
    requires ClimbWithin(h, x, a.vChainMerkleBranch, a.nChainIndex, pairs)
             && ClimbWithin(h, y, b.vChainMerkleBranch, b.nChainIndex, pairs)
    ensures x == y && a.vChainMerkleBranch == b.vChainMerkleBranch && a.nChainIndex == b.nChainIndex
  {
    var script, pc := a.scriptSig, Header(a.scriptSig) + |MERGED_MINING_HEADER|;
    assert Matches(script, pc, ChainRoot(h, a, x)) && Matches(script, pc, ChainRoot(h, b, y));
    assert ChainRoot(h, a, x) == script[pc..pc + 32] == ChainRoot(h, b, y);
    ReversedInjective(BranchRoot(h, x, a.vChainMerkleBranch, a.nChainIndex),
        BranchRoot(h, y, b.vChainMerkleBranch, b.nChainIndex));
    SamePower(|a.vChainMerkleBranch|, |b.vChainMerkleBranch|);
    ClimbInjective(h, x, y, a.vChainMerkleBranch, b.vChainMerkleBranch, a.nChainIndex, pairs);
  }

  /** A miner who puts the root of a full tree of chain slots right after the only header, followed by the
      tree's size and nonce, has a passing proof for the block in this chain's slot. */
  lemma MinedPasses(h: PairHash, a: Proof, leaves: seq<Hash>, height: nat, slot: nat, nChainId: int,
                    fStrictChainId: bool)
    requires height <= MAX_BRANCH && |leaves| == Pow2(height)
    requires a.nIndex == 0 && !(fStrictChainId && a.parentChainId == nChainId)
    requires Climb(h, a.coinbaseHash, a.vMerkleBranch, 0) == a.parentRoot
    requires var head := Header(a.scriptSig);
             && head < |a.scriptSig| && Search(a.scriptSig, head + 1, MERGED_MINING_HEADER) == |a.scriptSig|
             && Search(a.scriptSig, 0, Reversed(Node(h, leaves, height, 0))) == head + 4
             && head + 44 <= |a.scriptSig| && ReadWord(a.scriptSig, head + 36) == Pow2(height)
             && slot == ExpectedSlot(ReadWord(a.scriptSig, head + 40), nChainId, height) < Pow2(height)
    requires a.nChainIndex == slot && a.vChainMerkleBranch == BranchUp(h, leaves, 0, slot, height)
    ensures Passes(h, a, leaves[slot], nChainId, fStrictChainId)
  {
    hide Pow2, Reversed, ExpectedSlot, Search, Climb, Node, BranchUp, ReadWord;
    LeafNode(h, leaves, slot);
    ClimbReachesRoot(h, leaves, 0, slot, height);
    var pc := Header(a.scriptSig) + 4;
    assert ChainRoot(h, a, leaves[slot]) == Reversed(Node(h, leaves, height, 0));
    assert RootPlaced(a.scriptSig, pc) && SlotAgrees(a, nChainId, pc + 32);
  }

  /** The same without a header anywhere, with the root among the first 20 places. */
  lemma MinedEarly(h: PairHash, a: Proof, leaves: seq<Hash>, height: nat, slot: nat, nChainId: int, strict: bool,
                   pc: nat)
    requires height <= MAX_BRANCH && |leaves| == Pow2(height)
    requires a.nIndex == 0 && !(strict && a.parentChainId == nChainId)
    requires Climb(h, a.coinbaseHash, a.vMerkleBranch, 0) == a.parentRoot
    requires !HasHeader(a.scriptSig) && pc <= 20 && pc + 40 <= |a.scriptSig|
    requires RootAt(a.scriptSig, Reversed(Node(h, leaves, height, 0)), pc)
    requires slot < Pow2(height) && SlotAt(a.scriptSig, pc, height, slot, nChainId)
    requires a.nChainIndex == slot && a.vChainMerkleBranch == BranchUp(h, leaves, 0, slot, height)
    ensures Passes(h, a, leaves[slot], nChainId, strict)
  {
    hide Pow2, Reversed, RootAt, SlotAt, Passes, Climb, Node, BranchUp;
    LeafNode(h, leaves, slot);
    ClimbReachesRoot(h, leaves, 0, slot, height);
    assert ChainRoot(h, a, leaves[slot]) == Reversed(Node(h, leaves, height, 0));
    PassesIff(h, a, leaves[slot], nChainId, strict);
  }

  lemma LeafNode(h: PairHash, leaves: seq<Hash>, slot: nat)
    requires slot < |leaves|
    ensures (slot + 1) * Pow2(0) <= |leaves| && Node(h, leaves, 0, slot) == leaves[slot]
  {
  }
}
