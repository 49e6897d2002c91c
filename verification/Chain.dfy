/** The block tree with its skip pointers, and the indexed chain. */
module Chain {

  import opened Powers
  import opened SkipHeights

  // ------------------------------------------------------------ the block tree

  class CBlockIndex {
    const pprev: CBlockIndex?
    const nHeight: nat
    var pskip: CBlockIndex?

    /** A block's height is one above its parent's, down to the genesis block at height 0. */
    ghost predicate Linked()
      decreases nHeight
    {
      if pprev == null then nHeight == 0 else nHeight == pprev.nHeight + 1 && pprev.Linked()
    }

    /** The reference: walk back one block at a time. */
    ghost function Ancestor(height: nat): (r: CBlockIndex)
      requires Linked() && height <= nHeight
      ensures r.Linked() && r.nHeight == height
      decreases nHeight
    {
      if height == nHeight then this else pprev.Ancestor(height)
    }

    lemma {:induction false} AncestorOfAncestor(middle: nat, height: nat)
      requires Linked() && height <= middle <= nHeight
      ensures Ancestor(middle).Ancestor(height) == Ancestor(height)
      decreases nHeight
    {
      if middle < nHeight { pprev.AncestorOfAncestor(middle, height); }
    }

    /** A skip pointer, where there is one, leads to the ancestor at the skip height. */
    ghost predicate SkipOk()
      requires Linked()
      reads this
    {
      pskip != null ==> nHeight > 0 && pskip == Ancestor(GetSkipHeight(nHeight))
    }

    /** A new block on top of another, before its skip pointer is built. */
    constructor (pprev: CBlockIndex?)
      requires pprev != null ==> pprev.Linked()
      ensures this.pprev == pprev && pskip == null && Linked()
      ensures nHeight == if pprev == null then 0 else pprev.nHeight + 1
    {
      this.pprev := pprev;
      nHeight := if pprev == null then 0 else pprev.nHeight + 1;
      pskip := null;
    }

    /** The same block as by walking back; with all skip pointers built, in 2k(k + 1) steps from below height 2^k. */
    method GetAncestor(height: int, ghost tree: set<CBlockIndex>) returns (r: CBlockIndex?, ghost steps: nat)
      requires TreeOk(tree) && this in tree
      ensures r == null <==> height > nHeight || height < 0
      ensures r != null ==> r in tree && r == Ancestor(height)
      ensures AllSkips(tree) ==> forall k: nat :: nHeight < Pow2(k) ==> steps <= 2 * (k * (k + 1))
    {
      hide NextHeight, GetSkipHeight;
      steps := 0;
      if height > nHeight || height < 0 {
        StepsWithin(0, 0, 0);
        return null, 0;
      }
      var pindexWalk, heightWalk := this, nHeight;
      while heightWalk > height
        invariant pindexWalk in tree && heightWalk == pindexWalk.nHeight >= height
        invariant AllSkips(tree) ==> steps + Steps(heightWalk, height) == Steps(nHeight, height)
        invariant pindexWalk.Linked() && pindexWalk.Ancestor(height) == Ancestor(height)
        decreases heightWalk
      {
        NextIs(heightWalk, height);
        steps := steps + 1;
        var heightSkip := GetSkipHeight(heightWalk);
        var heightSkipPrev := GetSkipHeight(heightWalk - 1);
        if pindexWalk.pskip != null &&
           (heightSkip == height
            || (heightSkip > height && !(heightSkipPrev < heightSkip - 2 && heightSkipPrev >= height)))
        {
          pindexWalk.AncestorOfAncestor(heightSkip, height);
          pindexWalk := SkipTarget(pindexWalk, tree);
          heightWalk := heightSkip;
        } else {
          assert pindexWalk.pprev != null;
          pindexWalk := pindexWalk.pprev;
          heightWalk := heightWalk - 1;
        }
      }
      if AllSkips(tree) { StepsWithin(nHeight, height, steps); }
      return pindexWalk, steps;
    }

    method BuildSkip(ghost tree: set<CBlockIndex>)
      requires TreeOk(tree) && this !in tree && Linked() && (pprev != null ==> pprev in tree)
      requires pskip == null
      modifies `pskip
      ensures TreeOk(tree + {this}) && (pskip != null <==> pprev != null)
              && (AllSkips(tree) ==> AllSkips(tree + {this}))
    {
      if pprev != null {
        ghost var steps;
        pskip, steps := pprev.GetAncestor(GetSkipHeight(nHeight), tree);
      }
    }
  }

  /** Every block is linked to its parent in the tree, and its skip pointer is right. */
  ghost predicate TreeOk(tree: set<CBlockIndex>)
    reads tree
  {
    forall b <- tree :: b.Linked() && b.SkipOk() && (b.pprev != null ==> b.pprev in tree)
  }

  /** Every block but the genesis block has its skip pointer. */
  ghost predicate AllSkips(tree: set<CBlockIndex>)
    reads tree
  {
    forall b <- tree :: b.pprev != null ==> b.pskip != null
  }

  lemma NextIs(w: nat, t: nat)
    requires w > t
    ensures var skip, skipPrev := GetSkipHeight(w), GetSkipHeight(w - 1);
            NextHeight(w, t) == if skip == t
                || (skip > t && !(skipPrev < skip - 2 && skipPrev >= t)) then skip else w - 1
  {
  }

  lemma StepsWithin(w: nat, t: nat, steps: nat)
    requires w >= t && steps == Steps(w, t)
    ensures forall k: nat :: w < Pow2(k) ==> steps <= 2 * (k * (k + 1))
  {
    forall k: nat | w < Pow2(k) ensures steps <= 2 * (k * (k + 1)) { StepsBound(w, t, k); }
  }

  lemma {:induction false} AncestorInTree(b: CBlockIndex, tree: set<CBlockIndex>, height: nat)
    requires TreeOk(tree) && b in tree && height <= b.nHeight
    ensures b.Linked() && b.Ancestor(height) in tree
    decreases b.nHeight
  {
    if height < b.nHeight { AncestorInTree(b.pprev, tree, height); }
  }

  method SkipTarget(b: CBlockIndex, ghost tree: set<CBlockIndex>) returns (r: CBlockIndex)
    requires TreeOk(tree) && b in tree && b.pskip != null
    ensures b.Linked() && b.nHeight > 0 && r in tree && r == b.Ancestor(GetSkipHeight(b.nHeight))
  {
    AncestorInTree(b, tree, GetSkipHeight(b.nHeight));
    r := b.pskip;
  }

  // ------------------------------------------------------------ the chain

  class CChain {
    var vChain: seq<CBlockIndex?>

    /** The chain holds, at every height, the ancestor of its tip. */
    ghost predicate Valid()
      reads this
    {
      Spine(vChain)
    }

    constructor ()
      ensures Valid() && vChain == []
    {
      vChain := [];
    }

    function Height(): int
      reads this
    {
      |vChain| - 1
    }

    function At(height: int): CBlockIndex?
      reads this
    {
      if height < 0 || height >= |vChain| then null else vChain[height]
    }

    function Tip(): CBlockIndex?
      reads this
    {
      if |vChain| > 0 then vChain[|vChain| - 1] else null
    }

    predicate Contains(pindex: CBlockIndex)
      reads this
    {
      At(pindex.nHeight) == pindex
    }

    function Next(pindex: CBlockIndex): CBlockIndex?
      reads this
    {
      if Contains(pindex) then At(pindex.nHeight + 1) else null
    }

    /** Contained are exactly the tip and its ancestors. */
    lemma ContainsIff(pindex: CBlockIndex)
      requires Valid() && pindex.Linked()
      ensures Contains(pindex) <==>
                Tip() != null && Tip().Linked() && pindex.nHeight <= Height()
                && pindex == Tip().Ancestor(pindex.nHeight)
    {
      if pindex.nHeight < |vChain| { SpineAncestor(vChain, pindex.nHeight); }
    }

    /** The successor of a contained block is its child in the chain; the tip, and a block outside, have none. */
    lemma NextIff(pindex: CBlockIndex)
      requires Valid() && pindex.Linked()
      ensures var next := Next(pindex);
              if Contains(pindex) && pindex != Tip() then next != null && next.pprev == pindex
                  && Contains(next) else next == null
    {
    }

    /** The early stop is sound: where the chain already has a block, it already has all its ancestors. */
    method SetTip(pindex: CBlockIndex?)
      requires Valid() && (pindex != null ==> pindex.Linked())
      modifies this
      ensures Valid() && Tip() == pindex
    {
      if pindex == null {
        vChain := [];
        return;
      }
      ghost var was := vChain;
      var size := pindex.nHeight + 1;
      vChain := if size <= |vChain| then vChain[..size] else vChain + seq(size - |vChain|, _ => null);
      ghost var resized := vChain;
      var walk: CBlockIndex? := pindex;
      while walk != null && vChain[walk.nHeight] != walk
        invariant |vChain| == size
        invariant walk != null ==> walk.Linked() && walk.nHeight < size && walk == pindex.Ancestor(walk.nHeight)
        invariant var low := if walk == null then 0 else walk.nHeight + 1;
                  && (forall i :: low <= i < size ==> vChain[i] == pindex.Ancestor(i))
                  && (forall i :: 0 <= i < low ==> vChain[i] == resized[i])
        decreases if walk == null then 0 else walk.nHeight + 1
      {
        vChain := vChain[walk.nHeight := walk];
        AncestorPrev(pindex, walk.nHeight);
        walk := walk.pprev;
      }
      if walk != null { StopSound(pindex, was, walk.nHeight); }
      assert forall i :: 0 <= i < size ==> vChain[i] == pindex.Ancestor(i);
      SpineOf(pindex, vChain);
    }

    /** No ancestor of the block from this height on is in the chain. */
    ghost predicate NoneFrom(pindex: CBlockIndex, height: nat)
      requires pindex.Linked()
      reads this
    {
      forall h :: height <= h <= pindex.nHeight ==> !Contains(pindex.Ancestor(h))
    }

    /** The highest block that is both in the chain and the given block or one of its ancestors. */
    method FindFork(pindex: CBlockIndex?, ghost tree: set<CBlockIndex>) returns (fork: CBlockIndex?)
      requires Valid() && TreeOk(tree) && (pindex != null ==> pindex in tree)
      ensures fork != null ==>
                pindex != null && Contains(fork) && fork.nHeight <= pindex.nHeight
                && fork == pindex.Ancestor(fork.nHeight)
      ensures pindex != null ==> NoneFrom(pindex, if fork == null then 0 else fork.nHeight + 1)
    {
      if pindex == null { return null; }
      fork := pindex;
      if fork.nHeight > Height() {
        ghost var steps;
        fork, steps := fork.GetAncestor(Height(), tree);
      }
      fork := WalkBack(pindex, fork);
    }

    method WalkBack(ghost pindex: CBlockIndex, from: CBlockIndex?) returns (fork: CBlockIndex?)
      requires pindex.Linked() && NoneFrom(pindex, if from == null then 0 else from.nHeight + 1)
      requires from != null ==> from.nHeight <= pindex.nHeight && from == pindex.Ancestor(from.nHeight)
      ensures fork != null ==> Contains(fork) && fork.nHeight <= pindex.nHeight && fork == pindex.Ancestor(fork.nHeight)
      ensures NoneFrom(pindex, if fork == null then 0 else fork.nHeight + 1)
    {
      hide CBlockIndex.Ancestor, CBlockIndex.Linked;
      fork := from;
      while fork != null && !Contains(fork)
        invariant fork != null ==> fork.nHeight <= pindex.nHeight && fork == pindex.Ancestor(fork.nHeight)
        invariant NoneFrom(pindex, if fork == null then 0 else fork.nHeight + 1)
        decreases if fork == null then 0 else fork.nHeight + 1
      {
        AncestorPrev(pindex, fork.nHeight);
        fork := fork.pprev;
      }
    }

    /** By index where the block is in the chain, by skip pointers otherwise. */
    method StepBack(pindex: CBlockIndex, nHeight: nat, ghost tree: set<CBlockIndex>) returns (r: CBlockIndex)
      requires Valid() && TreeOk(tree) && pindex in tree && nHeight <= pindex.nHeight
      ensures r in tree && pindex.Linked() && r == pindex.Ancestor(nHeight)
    {
      if Contains(pindex) {
        SpineAncestor(vChain[..pindex.nHeight + 1], nHeight);
        AncestorInTree(pindex, tree, nHeight);
        r := At(nHeight);
      } else {
        ghost var steps;
        r, steps := pindex.GetAncestor(nHeight, tree);
      }
    }

    /** The blocks of a locator: the given block, or the tip, and its ancestors at the locator heights. */
    method GetLocator(start: CBlockIndex?, ghost tree: set<CBlockIndex>) returns (vHave: seq<CBlockIndex>)
      requires Valid() && TreeOk(tree) && (start != null ==> start in tree) && (Tip() != null ==> Tip() in tree)
      ensures var from := if start == null then Tip() else start;
              if from == null then vHave == []
              else from.Linked() && AncestorsAt(from, LocatorHeights(from.nHeight, 1, 1), vHave)
    {
      var from: CBlockIndex? := if start == null then Tip() else start;
      if from == null { return []; }
      vHave := LocatorFrom(from, tree);
    }

    method LocatorFrom(from: CBlockIndex, ghost tree: set<CBlockIndex>) returns (vHave: seq<CBlockIndex>)
      requires Valid() && TreeOk(tree) && from in tree
      ensures from.Linked() && AncestorsAt(from, LocatorHeights(from.nHeight, 1, 1), vHave)
    {
      var nStep := 1;
      vHave := [];
      var pindex: CBlockIndex := from;
      ghost var named, left := [], LocatorHeights(from.nHeight, 1, 1);
      assert LocatorLeft(from, pindex, named, left, vHave, nStep) by { assert named + left == left; }
      hide TreeOk, LocatorLeft, LocatorHeights, AncestorsAt, Spine, CBlockIndex.Ancestor;
      while pindex.nHeight != 0
        invariant nStep > 0 && pindex in tree && LocatorLeft(from, pindex, named, left, vHave, nStep)
        decreases pindex.nHeight
      {
        LocatorStep(from, pindex, named, left, vHave, nStep);
        vHave := vHave + [pindex];
        named, left := named + [pindex.nHeight], left[1..];
        var nHeight := if pindex.nHeight >= nStep then pindex.nHeight - nStep else 0;
        pindex := StepBack(pindex, nHeight, tree);
        if |vHave| > 10 { nStep := nStep * 2; }
      }
      LocatorEnd(from, pindex, named, left, vHave, nStep);
      vHave := vHave + [pindex];
    }
  }

  /** `named` heights have been collected in `have`, and `left` are the locator heights from pindex on. */
  ghost predicate LocatorLeft(from: CBlockIndex, pindex: CBlockIndex, named: seq<nat>, left: seq<nat>,
                              have: seq<CBlockIndex>, step: nat) {
    && step > 0 && from.Linked() && pindex.nHeight <= from.nHeight && pindex == from.Ancestor(pindex.nHeight)
    && left == LocatorHeights(pindex.nHeight, step, |have| + 1)
    && named + left == LocatorHeights(from.nHeight, 1, 1) && AncestorsAt(from, named, have)
  }

  lemma LocatorStep(from: CBlockIndex, pindex: CBlockIndex, named: seq<nat>, left: seq<nat>, have: seq<CBlockIndex>,
                    step: nat)
    requires LocatorLeft(from, pindex, named, left, have, step) && pindex.nHeight > 0
    ensures left != [] && pindex.Linked()
    ensures var height := if pindex.nHeight >= step then pindex.nHeight - step else 0;
            LocatorLeft(from, pindex.Ancestor(height), named + [pindex.nHeight], left[1..], have + [pindex],
                if |have| + 1 > 10 then step * 2 else step)
  {
    hide LocatorHeights;
    LocatorStart(pindex.nHeight, step, |have| + 1);
    TakeOne(named, left);
    OneMore(from, named, have, pindex);
    from.AncestorOfAncestor(pindex.nHeight, if pindex.nHeight >= step then pindex.nHeight - step else 0);
  }

  lemma LocatorEnd(from: CBlockIndex, pindex: CBlockIndex, named: seq<nat>, left: seq<nat>, have: seq<CBlockIndex>,
                   step: nat)
    requires LocatorLeft(from, pindex, named, left, have, step) && pindex.nHeight == 0
    ensures from.Linked() && AncestorsAt(from, LocatorHeights(from.nHeight, 1, 1), have + [pindex])
  {
    LocatorStart(pindex.nHeight, step, |have| + 1);
    assert left == [0];
    OneMore(from, named, have, pindex);
  }

  /** The blocks are a block's ancestors at these heights. */
  ghost predicate AncestorsAt(b: CBlockIndex, heights: seq<nat>, blocks: seq<CBlockIndex>)
    requires b.Linked()
  {
    |blocks| == |heights| && forall i :: 0 <= i < |blocks| ==>
          heights[i] <= b.nHeight && blocks[i] == b.Ancestor(heights[i])
  }

  lemma OneMore(b: CBlockIndex, heights: seq<nat>, blocks: seq<CBlockIndex>, next: CBlockIndex)
    requires b.Linked() && AncestorsAt(b, heights, blocks) && next.nHeight <= b.nHeight
             && next == b.Ancestor(next.nHeight)
    ensures AncestorsAt(b, heights + [next.nHeight], blocks + [next])
  {
  }

  lemma TakeOne(named: seq<nat>, left: seq<nat>)
    requires left != []
    ensures named + left == named + [left[0]] + left[1..]
  {
  }

  /** The heights a locator names, from the count-th entry on: steps of one at first, then doubling, down to 0. */
  ghost function LocatorHeights(height: nat, step: nat, count: nat): seq<nat>
    requires step > 0
    decreases height
  {
    if height == 0 then [0] else
      [height] + LocatorHeights(if height >= step then height - step else 0, if count > 10 then 2 * step else step,
          count + 1)
  }

  lemma LocatorStart(height: nat, step: nat, count: nat)
    requires step > 0
    ensures var l := LocatorHeights(height, step, count);
            && |l| > 0 && l[0] == height && (height == 0 ==> |l| == 1)
            && (height > 0 ==>
                  l[1..] == LocatorHeights(if height >= step then height - step else 0,
                                               if count > 10 then 2 * step else step, count + 1))
  {
  }

  /** A locator goes strictly down and ends with the genesis block. */
  lemma {:induction false} LocatorDescends(height: nat, step: nat, count: nat)
    requires step > 0
    ensures var l := LocatorHeights(height, step, count);
            l[|l| - 1] == 0 && forall i :: 0 <= i < |l| - 1 ==> l[i] > l[i + 1]
    decreases height
  {
    LocatorStart(height, step, count);
    if height > 0 {
      var height', step' := if height >= step then height - step else 0, if count > 10 then 2 * step else step;
      LocatorDescends(height', step', count + 1);
      LocatorStart(height', step', count + 1);
    }
  }

  /** The heights in a locator: twelve in a row from the top, then steps of 2, 4, 8 and so on, and 0 at the end. */
  lemma LocatorAt(height: nat, i: nat)
    requires i < |LocatorHeights(height, 1, 1)|
    ensures LocatorHeights(height, 1, 1)[i] == Back(height, if i <= 11 then i else 9 + Pow2(i - 10))
  {
    LocatorSlow(height, 1, i);
  }

  function Back(height: nat, n: nat): nat { if height >= n then height - n else 0 }

  lemma {:induction false} LocatorSlow(height: nat, count: nat, i: nat)
    requires 1 <= count <= 11 && i < |LocatorHeights(height, 1, count)|
    ensures LocatorHeights(height, 1, count)[i]
            == Back(height, if i <= 11 - count then i else 10 - count + Pow2(i - (11 - count)))
    decreases 11 - count
  {
    hide Pow2;
    assert Pow2(0) == 1 by { PowZero(); }
    if count == 11 {
      LocatorFast(height, 0, 11, i);
    } else {
      LocatorStart(height, 1, count);
      if height > 0 && i > 0 { LocatorSlow(height - 1, count + 1, i - 1); }
    }
  }

  lemma PowZero()
    ensures Pow2(0) == 1
  {
  }

  lemma {:induction false} LocatorFast(height: nat, j: nat, count: nat, i: nat)
    requires count > 10 && i < |LocatorHeights(height, Pow2(j), count)|
    ensures Pow2(j + i) >= Pow2(j)
    ensures LocatorHeights(height, Pow2(j), count)[i] == Back(height, Pow2(j + i) - Pow2(j))
    decreases i
  {
    LocatorStart(height, Pow2(j), count);
    if height > 0 && i > 0 {
      assert Pow2(j + 1) == 2 * Pow2(j);
      LocatorFast(Back(height, Pow2(j)), j + 1, count + 1, i - 1);
    }
  }

  /** A locator is short: from height below 2^k it has at most k + 12 entries. */
  lemma LocatorShort(height: nat, k: nat)
    requires height < Pow2(k)
    ensures |LocatorHeights(height, 1, 1)| <= k + 12
  {
    LocatorFirst(height, 1, k);
  }

  lemma {:induction false} LocatorFirst(height: nat, count: nat, k: nat)
    requires height < Pow2(k) && 1 <= count <= 11
    ensures |LocatorHeights(height, 1, count)| <= (12 - count) + k + 1
    decreases 11 - count
  {
    if height > 0 {
      if count < 11 { LocatorFirst(height - 1, count + 1, k); } else { LocatorDoubles(height - 1, 2, 12, k, 1); }
    }
  }

  lemma {:induction false} LocatorDoubles(height: nat, step: nat, count: nat, k: nat, j: nat)
    requires count > 10 && step == Pow2(j) && j <= k && height < Pow2(k) - Pow2(j) + 1
    ensures |LocatorHeights(height, step, count)| <= k - j + 1
    decreases k - j
  {
    if height > 0 && j == k { assert false; }
    if height > 0 {
      var height' := if height >= step then height - step else 0;
      if j + 1 <= k {
        if j + 1 < k { Pow2Grows(j + 1, k); }
        LocatorDoubles(height', 2 * step, count + 1, k, j + 1);
      }
    }
  }

  ghost predicate Spine(v: seq<CBlockIndex?>) {
    forall i :: 0 <= i < |v| ==>
          v[i] != null && v[i].Linked() && v[i].nHeight == i && (i > 0 ==> v[i].pprev == v[i - 1])
  }

  lemma {:induction false} SpineAncestor(v: seq<CBlockIndex?>, height: nat)
    requires Spine(v) && height < |v|
    ensures v[|v| - 1].Ancestor(height) == v[height]
  {
    if height < |v| - 1 {
      SpineAncestor(v[..|v| - 1], height);
    }
  }

  lemma AncestorPrev(b: CBlockIndex, height: nat)
    requires b.Linked() && height <= b.nHeight
    ensures var a := b.Ancestor(height); if height == 0 then a.pprev == null else a.pprev == b.Ancestor(height - 1)
  {
    if height > 0 { b.AncestorOfAncestor(height, height - 1); }
  }

  /** A sequence of a block's ancestors is a spine. */
  lemma SpineOf(b: CBlockIndex, v: seq<CBlockIndex?>)
    requires b.Linked() && |v| == b.nHeight + 1 && forall i :: 0 <= i < |v| ==> v[i] == b.Ancestor(i)
    ensures Spine(v)
  {
    forall i | 0 < i < |v|
      ensures v[i].pprev == v[i - 1]
    {
      AncestorPrev(b, i);
    }
  }

  /** Where a spine has a block's ancestor, it has all the lower ones too. */
  lemma StopSound(b: CBlockIndex, v: seq<CBlockIndex?>, height: nat)
    requires b.Linked() && Spine(v) && height < |v| && height <= b.nHeight && v[height] == b.Ancestor(height)
    ensures forall i :: 0 <= i <= height ==> v[i] == b.Ancestor(i)
  {
    forall i | 0 <= i <= height
      ensures v[i] == b.Ancestor(i)
    {
      SpineAncestor(v[..height + 1], i);
      b.AncestorOfAncestor(height, i);
    }
  }
}
