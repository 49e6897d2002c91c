/** Block assembly: a greedy scheduler of transaction packages, after a first part of the block by
    priority. Whatever is taken first is up to comparators that are not modelled: what is proved
    holds for every choice. */
module Miner {

  import opened Mempool
  import opened Packages
  import opened Selection

  const WITNESS_SCALE_FACTOR: nat := 4
  const MAX_BLOCK_SIGOPS_COST: nat := 80000
  const MAX_CONSECUTIVE_FAILURES: nat := 1000

  // ------------------------------------------------------------ the block

  function Elems(s: seq<Txid>): set<Txid> { set x | x in s }

  /** Each transaction is listed once, and after everything it depends on. */
  ghost predicate WellOrdered(p: Pool, vtx: seq<Txid>) {
    && (forall i {:trigger vtx[i]} :: 0 <= i < |vtx| ==> vtx[i] in p && p[vtx[i]].anc <= Elems(vtx[..i]))
    && forall i, j :: 0 <= i < j < |vtx| ==> vtx[i] != vtx[j]
  }

  lemma WellOrderedAppend(p: Pool, vtx: seq<Txid>, t: Txid)
    requires WellOrdered(p, vtx) && t in p && t !in vtx && p[t].anc <= Elems(vtx)
    ensures WellOrdered(p, vtx + [t]) && Elems(vtx + [t]) == Elems(vtx) + {t}
  {
    var v := vtx + [t];
    forall i | 0 <= i < |v|
      ensures v[i] in p && p[v[i]].anc <= Elems(v[..i])
    {
      if i < |vtx| { assert v[i] == vtx[i] && v[..i] == vtx[..i]; } else { assert v[..i] == vtx; }
    }
  }

  lemma WellOrderedClosed(p: Pool, vtx: seq<Txid>)
    requires WellOrdered(p, vtx)
    ensures Closed(p, Elems(vtx))
  {
    forall d | d in Elems(vtx)
      ensures d in p && p[d].anc <= Elems(vtx)
    {
      var i :| 0 <= i < |vtx| && vtx[i] == d;
      assert p[vtx[i]].anc <= Elems(vtx[..i]);
    }
  }

  /** When all parents are in the block, all ancestors are. */
  lemma ParentsSuffice(p: Pool, inBlock: set<Txid>, t: Txid)
    requires GoodPool(p) && Closed(p, inBlock) && t in p && p[t].parents <= inBlock
    ensures p[t].anc <= inBlock
  {
    assert GoodEntry(p, t);
    forall a | a in p[t].anc
      ensures a in inBlock
    {
      if a !in p[t].parents {
        var q :| q in p[t].parents && a in p[q].anc;
        assert q in inBlock;
      }
    }
  }

  /** With one more transaction each counter grows by its share. */
  lemma CountersAdd(p: Pool, inBlock: set<Txid>, t: Txid)
    requires inBlock <= p.Keys && t in p && t !in inBlock
    ensures Sum(Weights(p), inBlock + {t}) == Sum(Weights(p), inBlock) + p[t].weight
    ensures Sum(SigOps(p), inBlock + {t}) == Sum(SigOps(p), inBlock) + p[t].sigops
    ensures Sum(Fees(p), inBlock + {t}) == Sum(Fees(p), inBlock) + p[t].fee
    ensures Sum(SerSizes(p), inBlock + {t}) == Sum(SerSizes(p), inBlock) + p[t].serSize
  {
    SumAdd(Weights(p), inBlock, t);
    SumAdd(SigOps(p), inBlock, t);
    SumAdd(Fees(p), inBlock, t);
    SumAdd(SerSizes(p), inBlock, t);
  }

  /** A package weighs at most four times its size. */
  lemma PackageWeight(p: Pool, pkg: set<Txid>)
    requires GoodPool(p) && pkg <= p.Keys
    ensures Sum(Weights(p), pkg) <= 4 * Sum(Sizes(p), pkg)
  {
    forall x | x in pkg
      ensures Weights(p)[x] <= 4 * Sizes(p)[x]
    {
      assert GoodEntry(p, x);
    }
    SumScaled(Weights(p), Sizes(p), pkg, 4);
  }

  // ------------------------------------------------------------ sorting a package

  /** Ordered by number of ancestors. */
  ghost predicate ByAncestorCount(p: Pool, s: seq<Txid>)
    requires Elems(s) <= p.Keys
  {
    forall i, j :: 0 <= i < j < |s| ==> s[i] in p && s[j] in p && p[s[i]].countWithAnc <= p[s[j]].countWithAnc
  }

  /** The entry of a set with the fewest ancestors. */
  method FewestAncestors(p: Pool, package: set<Txid>) returns (t: Txid)
    requires package != {} && package <= p.Keys
    ensures t in package && forall x :: x in package ==> p[t].countWithAnc <= p[x].countWithAnc
  {
    t :| t in package;
    var todo := package - {t};
    while todo != {}
      invariant t in package && todo <= package
                && forall x :: x in package - todo ==> p[t].countWithAnc <= p[x].countWithAnc
      decreases todo
    {
      var x :| x in todo;
      if p[x].countWithAnc < p[t].countWithAnc { t := x; }
      todo := todo - {x};
    }
  }

  method SortForBlock(p: Pool, package: set<Txid>) returns (sortedEntries: seq<Txid>)
    requires package <= p.Keys
    ensures Elems(sortedEntries) == package && ByAncestorCount(p, sortedEntries)
    ensures forall i, j :: 0 <= i < j < |sortedEntries| ==> sortedEntries[i] != sortedEntries[j]
  {
    sortedEntries := [];
    var todo := package;
    while todo != {}
      invariant todo <= package && Elems(sortedEntries) == package - todo && ByAncestorCount(p, sortedEntries)
      invariant forall i, j :: 0 <= i < j < |sortedEntries| ==> sortedEntries[i] != sortedEntries[j]
      invariant forall x, i :: x in todo && 0 <= i < |sortedEntries| ==>
                  sortedEntries[i] in p && p[sortedEntries[i]].countWithAnc <= p[x].countWithAnc
      decreases todo
    {
      var t := FewestAncestors(p, todo);
      ghost var was := sortedEntries;
      assert t !in Elems(was);
      sortedEntries := sortedEntries + [t];
      assert Elems(sortedEntries) == Elems(was) + {t};
      todo := todo - {t};
    }
  }

  /** What a package's entry depends on is in the block or in the package. */
  lemma PackageClosed(p: Pool, t: Txid, inBlock: set<Txid>, x: Txid)
    requires GoodPool(p) && t in p && x in Package(p, t, inBlock)
    ensures x in p && p[x].anc <= inBlock + Package(p, t, inBlock)
  {
    assert GoodEntry(p, t);
  }

  /** Sorted by ancestor count, every entry of a package comes after the package's entries it depends on. */
  lemma SortedAncestorsFirst(p: Pool, t: Txid, inBlock: set<Txid>, s: seq<Txid>, k: nat)
    requires GoodPool(p) && t in p && Package(p, t, inBlock) <= p.Keys && Elems(s) == Package(p, t, inBlock)
             && ByAncestorCount(p, s) && k < |s|
    ensures s[k] in p && p[s[k]].anc <= inBlock + Elems(s[..k])
  {
    hide GoodPool, Package;
    assert s[k] in Elems(s);
    PackageClosed(p, t, inBlock, s[k]);
    forall a | a in p[s[k]].anc && a !in inBlock
      ensures a in Elems(s[..k])
    {
      FewerAncestors(p, a, s[k]);
      var i :| 0 <= i < |s| && s[i] == a;
      assert i < k;
      assert s[..k][i] == a;
    }
  }

  // ------------------------------------------------------------ the assembler

  function Clamped(x: nat, lo: nat, hi: nat): nat {
    if hi < x then hi else if x < lo then lo else x
  }

  class BlockAssembler {
    const pool: Pool
    const nBlockMaxWeight: nat
    const nBlockMaxSize: nat
    const fIncludeWitness: bool
    var fNeedSizeAccounting: bool
    var nBlockWeight: nat
    var nBlockSize: nat
    var nBlockTx: nat
    var nBlockSigOpsCost: nat
    var nFees: int
    var inBlock: set<Txid>
    var vtx: seq<Txid>
    var vTxFees: seq<int>
    var lastFewTxs: nat
    var blockFinished: bool

    /** The block is well ordered, its counters are exact sums over its transactions on top of what is reserved for the
        coinbase, it is within its limits, and only transactions that may be mined are in it. */
    ghost predicate Valid()
      reads this
    {
      && GoodPool(pool) && WellOrdered(pool, vtx) && inBlock == Elems(vtx) && inBlock <= pool.Keys
      && nBlockWeight == 4000 + Sum(Weights(pool), inBlock) && nBlockWeight <= nBlockMaxWeight
      && nBlockSigOpsCost == 400 + Sum(SigOps(pool), inBlock) && nBlockSigOpsCost < MAX_BLOCK_SIGOPS_COST
      && nFees == Sum(Fees(pool), inBlock) && nBlockTx == |vtx| == |vTxFees|
      && (forall i :: 0 <= i < |vtx| ==> vtx[i] in pool && vTxFees[i] == pool[vtx[i]].fee)
      && (fNeedSizeAccounting ==> nBlockSize == 1000 + Sum(SerSizes(pool), inBlock) && nBlockSize <= nBlockMaxSize)
      && (forall t :: t in inBlock ==> Minable(t))
    }

    predicate Minable(t: Txid) {
      t in pool && pool[t].isFinal && (pool[t].hasWitness ==> fIncludeWitness)
    }

    ghost function Limits(): Bounds
      reads this
    {
      Bounds(pool, nBlockMaxWeight, nBlockMaxSize, fIncludeWitness, fNeedSizeAccounting)
    }

    /** The limits are those that the configuration is clamped to. */
    constructor (pool: Pool, blockMaxWeight: nat, blockMaxSize: nat, fIncludeWitness: bool)
      requires GoodPool(pool)
      ensures Valid() && this.pool == pool && this.fIncludeWitness == fIncludeWitness && vtx == []
      ensures nBlockMaxWeight == Clamped(blockMaxWeight, 4000, 4000000 - 4000)
              && nBlockMaxSize == Clamped(blockMaxSize, 1000, 4000000 - 1000)
      ensures fNeedSizeAccounting == (nBlockMaxSize < 4000000 - 1000) && nBlockSize == 1000 && !blockFinished
    {
      this.pool, this.fIncludeWitness := pool, fIncludeWitness;
      var weight := if blockMaxWeight < 4000000 - 4000 then blockMaxWeight else 4000000 - 4000;
      nBlockMaxWeight := if weight < 4000 then 4000 else weight;
      var size := if blockMaxSize < 4000000 - 1000 then blockMaxSize else 4000000 - 1000;
      nBlockMaxSize := if size < 1000 then 1000 else size;
      fNeedSizeAccounting := (if size < 1000 then 1000 else size) < 4000000 - 1000;
      inBlock, vtx, vTxFees := {}, [], [];
      nBlockSize, nBlockWeight, nBlockSigOpsCost, nBlockTx, nFees := 1000, 4000, 400, 0, 0;
      lastFewTxs, blockFinished := 0, false;
      new;
      NoSum(Weights(pool));
      NoSum(SigOps(pool));
      NoSum(Fees(pool));
      NoSum(SerSizes(pool));
    }

    /** Room for one more transaction. */
    ghost predicate Fits(t: Txid)
      requires t in pool
      reads this
    {
      && nBlockWeight + pool[t].weight <= nBlockMaxWeight && nBlockSigOpsCost + pool[t].sigops < MAX_BLOCK_SIGOPS_COST
      && (fNeedSizeAccounting ==> nBlockSize + pool[t].serSize <= nBlockMaxSize)
    }

    method AddToBlock(t: Txid)
      requires Valid() && Minable(t) && t !in inBlock && pool[t].anc <= inBlock && Fits(t)
      modifies this
      ensures Valid() && vtx == old(vtx) + [t] && inBlock == old(inBlock) + {t}
      ensures nBlockWeight == old(nBlockWeight) + pool[t].weight
              && nBlockSigOpsCost == old(nBlockSigOpsCost) + pool[t].sigops
      ensures fNeedSizeAccounting == old(fNeedSizeAccounting)
              && (fNeedSizeAccounting ==> nBlockSize == old(nBlockSize) + pool[t].serSize)
      ensures nFees == old(nFees) + pool[t].fee && lastFewTxs == old(lastFewTxs) && blockFinished == old(blockFinished)
    {
      hide GoodPool, Sum, WellOrdered;
      WellOrderedAppend(pool, vtx, t);
      CountersAdd(pool, inBlock, t);
      vtx := vtx + [t];
      vTxFees := vTxFees + [pool[t].fee];
      if fNeedSizeAccounting { nBlockSize := nBlockSize + pool[t].serSize; }
      nBlockWeight := nBlockWeight + pool[t].weight;
      nBlockTx := nBlockTx + 1;
      nBlockSigOpsCost := nBlockSigOpsCost + pool[t].sigops;
      nFees := nFees + pool[t].fee;
      inBlock := inBlock + {t};
    }

    predicate TestPackage(packageSize: int, packageSigOpsCost: int)
      reads this
    {
      nBlockWeight + WITNESS_SCALE_FACTOR * packageSize < nBlockMaxWeight
          && nBlockSigOpsCost + packageSigOpsCost < MAX_BLOCK_SIGOPS_COST
    }

    /** Final, no premature witness, and within the size limit when that is accounted for. */
    method TestPackageTransactions(package: set<Txid>) returns (ok: bool)
      requires package <= pool.Keys && package != {}
      ensures ok <==>
                (forall t :: t in package ==> Minable(t))
                && (fNeedSizeAccounting ==> nBlockSize + Sum(SerSizes(pool), package) < nBlockMaxSize)
    {
      hide Sum;
      var nPotentialBlockSize := nBlockSize;
      var todo := package;
      NoSum(SerSizes(pool));
      assert package - todo == {};
      while todo != {}
        invariant todo <= package && (forall t :: t in package - todo ==> Minable(t))
        invariant fNeedSizeAccounting ==> nPotentialBlockSize == nBlockSize + Sum(SerSizes(pool), package - todo)
        invariant fNeedSizeAccounting && todo != package ==> nPotentialBlockSize < nBlockMaxSize
        decreases todo
      {
        var it :| it in todo;
        if !pool[it].isFinal { return false; }
        if !fIncludeWitness && pool[it].hasWitness { return false; }
        ghost var done := package - todo;
        SumAdd(SerSizes(pool), done, it);
        if fNeedSizeAccounting {
          var nTxSize := pool[it].serSize;
          if nPotentialBlockSize + nTxSize >= nBlockMaxSize {
            SumSplit(SerSizes(pool), package, done + {it});
            SumNonNegative(SerSizes(pool), package - (done + {it}));
            return false;
          }
          nPotentialBlockSize := nPotentialBlockSize + nTxSize;
        }
        todo := todo - {it};
        assert package - todo == done + {it};
      }
      assert package - todo == package;
      return true;
    }

    /** Room for all of a set of transactions. */
    ghost predicate RoomFor(rest: set<Txid>)
      requires rest <= pool.Keys
      reads this
    {
      && nBlockWeight + Sum(Weights(pool), rest) <= nBlockMaxWeight
         && nBlockSigOpsCost + Sum(SigOps(pool), rest) < MAX_BLOCK_SIGOPS_COST
      && (fNeedSizeAccounting ==> nBlockSize + Sum(SerSizes(pool), rest) <= nBlockMaxSize)
    }

    /** Adds a sorted package, and takes it out of the modified entries. */
    method AddPackage(t: Txid, sortedEntries: seq<Txid>, mapModifiedTx: Modified) returns (mod: Modified)
      requires Valid() && t in pool && Package(pool, t, inBlock) <= pool.Keys && t !in inBlock
      requires Elems(sortedEntries) == Package(pool, t, inBlock) && ByAncestorCount(pool, sortedEntries)
      requires forall i, j :: 0 <= i < j < |sortedEntries| ==> sortedEntries[i] != sortedEntries[j]
      requires RoomFor(Package(pool, t, inBlock)) && forall x :: x in Package(pool, t, inBlock) ==> Minable(x)
      modifies this
      ensures Valid() && inBlock == old(inBlock) + old(Package(pool, t, inBlock)) && vtx == old(vtx) + sortedEntries
      ensures fNeedSizeAccounting == old(fNeedSizeAccounting) && mod == mapModifiedTx - old(Package(pool, t, inBlock))
    {
      hide Sum, WellOrdered, GoodPool, ByAncestorCount, BlockAssembler.Valid, BlockAssembler.RoomFor;
      ghost var was, pkg := inBlock, Package(pool, t, inBlock);
      mod := mapModifiedTx;
      PoolKnown();
      var i := 0;
      assert Elems(sortedEntries[..0]) == {} && pkg - {} == pkg && vtx + sortedEntries[..0] == vtx;
      while i < |sortedEntries|
        invariant 0 <= i <= |sortedEntries| && Valid() && fNeedSizeAccounting == old(fNeedSizeAccounting)
        invariant inBlock == was + Elems(sortedEntries[..i]) && vtx == old(vtx) + sortedEntries[..i]
        invariant RoomFor(pkg - Elems(sortedEntries[..i])) && mod == mapModifiedTx - Elems(sortedEntries[..i])
      {
        var x := sortedEntries[i];
        NextSorted(sortedEntries, i, pkg);
        SortedAncestorsFirst(pool, t, was, sortedEntries, i);
        AddNext(x, pkg - Elems(sortedEntries[..i]));
        mod := mod - {x};
        i := i + 1;
      }
      assert sortedEntries[..i] == sortedEntries;
    }

    lemma PoolKnown()
      requires Valid()
      ensures GoodPool(pool)
    {
    }

    /** The totals kept for a transaction leave room for all of its package when TestPackage says so. */
    lemma TestedRoom(t: Txid, m: Totals, failed: set<Txid>, mod: Modified, sub: Ledger)
      requires Valid() && AllTracked(pool, inBlock, failed, mod, sub, inBlock) && t in pool && t !in inBlock
      requires m == Kept(pool, mod, t) && TestPackage(m.size, m.sigops)
      requires Package(pool, t, inBlock) <= pool.Keys
      requires fNeedSizeAccounting ==> nBlockSize + Sum(SerSizes(pool), Package(pool, t, inBlock)) <= nBlockMaxSize
      ensures RoomFor(Package(pool, t, inBlock))
    {
      AllWaiting(pool, inBlock, failed, mod, sub, t);
      TotalsCover(pool, inBlock, failed, mod, sub, t);
      PackageWeight(pool, Package(pool, t, inBlock));
    }

    lemma PackageInPool(t: Txid)
      requires GoodPool(pool) && t in pool
      ensures Package(pool, t, inBlock) <= pool.Keys
    {
      assert GoodEntry(pool, t);
    }

    /** Tries to add the package of one transaction. If that fails and the transaction was a modified entry, it is
        dropped and remembered as failed. */
    method TryPackage(t: Txid, m: Totals, mapModifiedTx: Modified, failedTx: set<Txid>, ghost sub: Ledger)
      returns (tested: bool, added: bool, mod: Modified, failed: set<Txid>, ghost sub': Ledger, n: nat)
      requires Valid() && AllTracked(pool, inBlock, failedTx, mapModifiedTx, sub, inBlock) && t in pool && t !in inBlock
      requires m == Kept(pool, mapModifiedTx, t)
      modifies this
      ensures Valid() && AllTracked(pool, inBlock, failed, mod, sub', inBlock)
              && fNeedSizeAccounting == old(fNeedSizeAccounting)
      ensures Package(pool, t, old(inBlock)) <= pool.Keys && old(inBlock) <= pool.Keys
      ensures added <==> !Refuses(old(Limits()), t, m, old(inBlock))
      ensures tested <==> !NoRoom(old(Limits()), m, old(inBlock))
      ensures added ==>
                tested && inBlock == old(inBlock) + old(Package(pool, t, inBlock)) && old(vtx) <= vtx
                && failed == failedTx && mapModifiedTx.Keys <= mod.Keys + inBlock
      ensures !added ==>
                inBlock == old(inBlock) && vtx == old(vtx) && mod == mapModifiedTx - {t} && failed <= failedTx + {t}
    {
      hide Sum, WellOrdered, GoodPool, AllTracked, Refuses, NoRoom;
      tested, added, mod, failed, sub', n := false, false, mapModifiedTx, failedTx, sub, 0;
      PackageInPool(t);
      RefusesIff(t, m);
      if TestPackage(m.size, m.sigops) {
        tested := true;
        var ancestors := pool[t].anc - inBlock + {t};
        var ok := TestPackageTransactions(ancestors);
        if ok {
          added := true;
          mod, sub', n := Include(t, ancestors, m, mod, failed, sub');
          return;
        }
      }
      if t in mod {
        DropFailed(pool, inBlock, failed, mod, sub', t);
        mod := mod - {t};
        failed := failed + {t};
      }
      assert t !in mapModifiedTx ==> mapModifiedTx - {t} == mapModifiedTx;
    }

    /** The two tests together refuse exactly what there is a reason to refuse. */
    lemma RefusesIff(t: Txid, m: Totals)
      requires Valid() && t in pool && Package(pool, t, inBlock) <= pool.Keys
      ensures Refuses(Limits(), t, m, inBlock) <==>
              !(&& TestPackage(m.size, m.sigops) && (forall x :: x in Package(pool, t, inBlock) ==> Minable(x))
                && (fNeedSizeAccounting ==>
                      nBlockSize + Sum(SerSizes(pool), Package(pool, t, inBlock)) < nBlockMaxSize))
      ensures NoRoom(Limits(), m, inBlock) <==> !TestPackage(m.size, m.sigops)
    {
      hide Sum, WellOrdered, GoodPool;
      forall x ensures Minable(x) <==> MayBeMined(Limits(), x) {}
    }

    method Include(t: Txid, ancestors: set<Txid>, ghost m: Totals, mapModifiedTx: Modified, ghost failed: set<Txid>,
                   ghost sub: Ledger)
      returns (mod: Modified, ghost sub': Ledger, n: nat)
      requires Valid() && AllTracked(pool, inBlock, failed, mapModifiedTx, sub, inBlock) && t in pool && t !in inBlock
      requires m == Kept(pool, mapModifiedTx, t) && TestPackage(m.size, m.sigops)
      requires ancestors == Package(pool, t, inBlock) <= pool.Keys && forall x :: x in ancestors ==> Minable(x)
      requires fNeedSizeAccounting ==> nBlockSize + Sum(SerSizes(pool), ancestors) < nBlockMaxSize
      modifies this
      ensures Valid() && AllTracked(pool, inBlock, failed, mod, sub', inBlock)
              && fNeedSizeAccounting == old(fNeedSizeAccounting)
      ensures inBlock == old(inBlock) + ancestors && old(vtx) <= vtx && mapModifiedTx.Keys <= mod.Keys + ancestors
    {
      hide Sum, WellOrdered, GoodPool, AllTracked;
      ghost var was := inBlock;
      WellOrderedClosed(pool, vtx);
      TestedRoom(t, m, failed, mapModifiedTx, sub);
      DropIncluded(pool, inBlock, failed, mapModifiedTx, sub, ancestors);
      var sortedEntries := SortForBlock(pool, ancestors);
      mod := AddPackage(t, sortedEntries, mapModifiedTx);
      WellOrderedClosed(pool, vtx);
      assert inBlock - ancestors == was;
      mod, sub', n := UpdatePackagesForAdded(pool, inBlock, ancestors, mod, failed, sub);
    }

    /** What is tested next: the next transaction of `order`, or a modified entry that is preferred to it. */
    method Pick(order: seq<Txid>, mi: nat, mapModifiedTx: Modified, prefers: (Txid, Totals, Txid, Totals) -> bool)
      returns (iter: Txid, fUsingModified: bool, mi': nat)
      requires mi <= |order| && (mi < |order| || mapModifiedTx != map[]) && (mi < |order| ==> order[mi] in pool)
      ensures if fUsingModified then iter in mapModifiedTx && mi' == mi
              else mi < |order| && iter == order[mi] && mi' == mi + 1
    {
      fUsingModified, mi' := false, mi;
      if mi == |order| {
        iter :| iter in mapModifiedTx;
        fUsingModified := true;
      } else {
        iter := order[mi];
        if mapModifiedTx != map[] {
          var best :| best in mapModifiedTx;
          if prefers(best, mapModifiedTx[best], iter, StoredTotals(pool, iter)) {
            iter := best;
            fUsingModified := true;
          }
        }
        if !fUsingModified { mi' := mi + 1; }
      }
    }

    /** What is tested may be recorded. */
    lemma TriedJustified(t: Txid, m: Totals, failed: set<Txid>, mod: Modified, sub: Ledger, minFee: int -> int,
                         earlier: set<Txid>, added: bool)
      requires Valid() && AllTracked(pool, inBlock, failed, mod, sub, inBlock) && t in pool && t !in inBlock
      requires m == Kept(pool, mod, t) && failed <= earlier && m.fees >= minFee(m.size)
      requires Package(pool, t, inBlock) <= pool.Keys && (added <==> !Refuses(Limits(), t, m, inBlock))
      ensures Justified(Limits(), minFee, earlier, Tried(t, m, inBlock, added))
    {
      hide Sum, WellOrdered, GoodPool, AllTracked, Exact, Refuses;
      KeptExact(pool, inBlock, failed, mod, sub, t);
    }

    /** In the middle of the selection: the block is what it was at the start and what the log says was added, the kept
        totals are in order, and what failed is in the log. */
    ghost predicate Selecting(b: Bounds, minFee: int -> int, start: set<Txid>, log: seq<Tried>, failed: set<Txid>,
                              mod: Modified, sub: Ledger)
      reads this
    {
      && Valid() && Limits() == b && AllTracked(pool, inBlock, failed, mod, sub, inBlock)
      && AllJustified(b, minFee, log) && inBlock == start + Included(pool, log) && failed <= Refused(log)
    }

    /** One package is tested and recorded. */
    method Round(iter: Txid, m: Totals, mapModifiedTx: Modified, failedTx: set<Txid>, ghost sub: Ledger,
                 ghost b: Bounds, ghost minFee: int -> int, ghost start: set<Txid>, ghost log: seq<Tried>)
      returns (tested: bool, added: bool, mod: Modified, failed: set<Txid>, ghost sub': Ledger, n: nat,
               ghost log': seq<Tried>)
      requires Selecting(b, minFee, start, log, failedTx, mapModifiedTx, sub) && iter in pool && iter !in inBlock
      requires m == Kept(pool, mapModifiedTx, iter) && m.fees >= minFee(m.size)
      modifies this
      ensures Selecting(b, minFee, start, log', failed, mod, sub') && old(vtx) <= vtx
      ensures old(inBlock) <= inBlock && Refused(log) <= Refused(log')
      ensures log' == log + [Tried(iter, m, old(inBlock), added)] && (tested <==> !NoRoom(b, m, old(inBlock)))
      ensures if added then iter in inBlock && mapModifiedTx.Keys <= mod.Keys + inBlock
              else inBlock == old(inBlock) && iter in Refused(log') && mod == mapModifiedTx - {iter}
    {
      hide Sum, WellOrdered, GoodPool, AllTracked, Refuses, NoRoom, Exact, AllJustified, Justified, Included, Refused;
      ghost var before := inBlock;
      PackageInPool(iter);
      TriedJustified(iter, m, failedTx, mapModifiedTx, sub, minFee, Refused(log), !Refuses(b, iter, m, before));
      tested, added, mod, failed, sub', n := TryPackage(iter, m, mapModifiedTx, failedTx, sub);
      LogMore(b, minFee, log, Tried(iter, m, before, added));
      log' := log + [Tried(iter, m, before, added)];
    }

    /** Selection by package fee rate. `order` is the memory pool in any order, `prefers` is any comparison of two
        transactions with their totals, and `minFee` the fee that a package of a size must pay. */
    method AddPackageTxs(order: seq<Txid>, prefers: (Txid, Totals, Txid, Totals) -> bool, minFee: int -> int)
      returns (nPackagesSelected: nat, nDescendantsUpdated: nat, ghost log: seq<Tried>, ghost exit: Exit)
      requires Valid() && forall i :: 0 <= i < |order| ==> order[i] in pool
      modifies this
      ensures Valid() && old(vtx) <= vtx && fNeedSizeAccounting == old(fNeedSizeAccounting)
      ensures Accounted(Limits(), minFee, order, old(inBlock), log, exit, inBlock)
    {
      hide BlockAssembler.Valid, BlockAssembler.Selecting, Included, Refused, Accounted, Covered, NoRoom, Failures,
           Persists, GivesUp;
      ghost var b, start := Limits(), inBlock;
      nPackagesSelected, nDescendantsUpdated, log, exit := 0, 0, [], Drained;
      var failedTx: set<Txid> := {};
      var mapModifiedTx: Modified;
      ghost var sub: Ledger;
      mapModifiedTx, sub := StartSelection(b, minFee);
      var mi: nat, nConsecutiveFailed: nat := 0, 0;
      CoverNone(order, inBlock + mapModifiedTx.Keys + Refused(log));
      NothingFailed(b);
      while mi < |order| || mapModifiedTx != map[]
        invariant Selecting(b, minFee, start, log, failedTx, mapModifiedTx, sub)
        invariant old(vtx) <= vtx && mi <= |order| && exit == Drained
        invariant Covered(order, mi, inBlock + mapModifiedTx.Keys + Refused(log))
        invariant Persists(b, log) && nConsecutiveFailed == Failures(b, log)
        decreases pool.Keys - inBlock, |order| - mi, mapModifiedTx.Keys
      {
        SelectingKnown(b, minFee, start, log, failedTx, mapModifiedTx, sub);
        ghost var all, before := inBlock + mapModifiedTx.Keys + Refused(log), inBlock;
        if mi < |order| && (order[mi] in mapModifiedTx || order[mi] in inBlock || order[mi] in failedTx) {
          CoverMore(order, mi, mi + 1, all, all);
          mi := mi + 1;
          continue;
        }
        ghost var seen := mi;
        var iter, fUsingModified;
        iter, fUsingModified, mi := Pick(order, mi, mapModifiedTx, prefers);
        assert iter !in inBlock;
        var m := if fUsingModified then mapModifiedTx[iter] else StoredTotals(pool, iter);
        if m.fees < minFee(m.size) {
          exit := Poor(iter, m);
          PoorEnds(b, minFee, order, start, log, failedTx, mapModifiedTx, sub, iter);
          return;
        }
        var tested, added, n;
        ghost var earlier := log;
        tested, added, mapModifiedTx, failedTx, sub, n, log :=
          Round(iter, m, mapModifiedTx, failedTx, sub, b, minFee, start, log);
        CoverMore(order, seen, mi, all, inBlock + mapModifiedTx.Keys + Refused(log));
        SelectingKnown(b, minFee, start, log, failedTx, mapModifiedTx, sub);
        FailuresMore(b, earlier, Tried(iter, m, before, added));
        GivesUpIff(b, earlier, Tried(iter, m, before, added));
        if added {
          nConsecutiveFailed := 0;
          nPackagesSelected := nPackagesSelected + 1;
          nDescendantsUpdated := nDescendantsUpdated + n;
          assert iter in pool.Keys - before;
        } else if !tested {
          nConsecutiveFailed := nConsecutiveFailed + 1;
          if nConsecutiveFailed > MAX_CONSECUTIVE_FAILURES && nBlockWeight > nBlockMaxWeight - 4000 {
            exit := Full;
            FullEnds(b, minFee, order, start, earlier, Tried(iter, m, before, added), failedTx, mapModifiedTx, sub);
            return;
          }
        }
      }
      DrainedEnds(b, minFee, order, start, log, failedTx, mapModifiedTx, sub);
    }

    method StartSelection(ghost b: Bounds, ghost minFee: int -> int)
      returns (mapModifiedTx: Modified, ghost sub: Ledger)
      requires Valid() && b == Limits()
      ensures Selecting(b, minFee, inBlock, [], {}, mapModifiedTx, sub)
    {
      StartTracked(pool, inBlock);
      WellOrderedClosed(pool, vtx);
      hide Sum, WellOrdered, GoodPool, AllTracked, Elems;
      EmptyLog(b, minFee);
      assert inBlock - inBlock == {};
      var n;
      mapModifiedTx, sub, n := UpdatePackagesForAdded(pool, inBlock, inBlock, map[], {}, map[]);
    }

    lemma SelectingKnown(b: Bounds, minFee: int -> int, start: set<Txid>, log: seq<Tried>, failed: set<Txid>,
                         mod: Modified, sub: Ledger)
      requires Selecting(b, minFee, start, log, failed, mod, sub)
      ensures Valid() && Limits() == b && inBlock <= pool.Keys && mod.Keys <= pool.Keys && mod.Keys !! inBlock
      ensures failed <= Refused(log) && AllJustified(b, minFee, log) && inBlock == start + Included(pool, log)
      ensures nBlockWeight == 4000 + Sum(Weights(pool), inBlock)
    {
      hide Sum, Included, Refused, AllJustified, WellOrdered;
      forall t | t in mod ensures t !in inBlock { NotYetIncluded(t, failed, mod, sub); }
    }

    lemma PoorEnds(b: Bounds, minFee: int -> int, order: seq<Txid>, start: set<Txid>, log: seq<Tried>,
                   failed: set<Txid>, mod: Modified, sub: Ledger, t: Txid)
      requires Selecting(b, minFee, start, log, failed, mod, sub) && t in pool && t !in inBlock
      requires Kept(pool, mod, t).fees < minFee(Kept(pool, mod, t).size) && Persists(b, log)
      ensures Valid() && Limits() == b
              && Accounted(b, minFee, order, start, log, Poor(t, Kept(pool, mod, t)), inBlock)
    {
      hide BlockAssembler.Valid, Sum, Included, Refused, AllJustified, Exact, AllTracked;
      SelectingKnown(b, minFee, start, log, failed, mod, sub);
      KeptExact(pool, inBlock, failed, mod, sub, t);
    }

    lemma FullEnds(b: Bounds, minFee: int -> int, order: seq<Txid>, start: set<Txid>, log: seq<Tried>,
                   r: Tried, failed: set<Txid>, mod: Modified, sub: Ledger)
      requires Selecting(b, minFee, start, log + [r], failed, mod, sub)
      requires Persists(b, log) && GivesUp(b, log + [r]) && inBlock == r.before
      ensures Valid() && Limits() == b && Accounted(b, minFee, order, start, log + [r], Full, inBlock)
    {
      hide BlockAssembler.Valid, BlockAssembler.Selecting, Sum, Included, Refused, AllJustified, Persists, GivesUp;
      SelectingKnown(b, minFee, start, log + [r], failed, mod, sub);
      assert (log + [r])[..|log + [r]| - 1] == log;
      assert log + [r] != [] && (log + [r])[|log + [r]| - 1] == r;
    }

    lemma DrainedEnds(b: Bounds, minFee: int -> int, order: seq<Txid>, start: set<Txid>, log: seq<Tried>,
                      failed: set<Txid>, mod: Modified, sub: Ledger)
      requires Selecting(b, minFee, start, log, failed, mod, sub)
      requires Persists(b, log) && mod == map[] && Covered(order, |order|, inBlock + mod.Keys + Refused(log))
      ensures Valid() && Limits() == b && Accounted(b, minFee, order, start, log, Drained, inBlock)
    {
      hide BlockAssembler.Valid, BlockAssembler.Selecting, Sum, Included, Refused, AllJustified;
      SelectingKnown(b, minFee, start, log, failed, mod, sub);
    }

    /** A modified entry is in the pool and never already in the block. */
    lemma NotYetIncluded(t: Txid, failed: set<Txid>, mod: Modified, sub: Ledger)
      requires AllTracked(pool, inBlock, failed, mod, sub, inBlock)
      ensures t in mod ==> t in pool && t !in inBlock
    {
      if t in mod { assert GoodEntry(pool, t); }
    }

    method IsStillDependent(t: Txid) returns (dependent: bool)
      requires t in pool
      ensures dependent <==> !(pool[t].parents <= inBlock)
    {
      var todo := pool[t].parents;
      while todo != {}
        invariant todo <= pool[t].parents && pool[t].parents - todo <= inBlock
        decreases todo
      {
        var parent :| parent in todo;
        if parent !in inBlock { return true; }
        todo := todo - {parent};
      }
      return false;
    }

    predicate TooHeavy(t: Txid)
      requires t in pool
      reads this
    {
      nBlockWeight + pool[t].weight >= nBlockMaxWeight
    }

    predicate TooLarge(t: Txid)
      requires t in pool
      reads this
    {
      fNeedSizeAccounting && nBlockSize + pool[t].serSize >= nBlockMaxSize
    }

    predicate TooManySigOps(t: Txid)
      requires t in pool
      reads this
    {
      nBlockSigOpsCost + pool[t].sigops >= MAX_BLOCK_SIGOPS_COST
    }

    /** A transaction does not fit, and so little room is left, or so often was none found, that the block is done. */
    predicate Finishes(t: Txid)
      requires t in pool
      reads this
    {
      if TooHeavy(t) then nBlockWeight > nBlockMaxWeight - 400 || lastFewTxs > 50
      else if TooLarge(t) then nBlockSize > nBlockMaxSize - 100 || lastFewTxs > 50
      else TooManySigOps(t) && nBlockSigOpsCost > MAX_BLOCK_SIGOPS_COST - 8
    }

    /** A transaction does not fit a nearly full block. */
    predicate Misses(t: Txid)
      requires t in pool
      reads this
    {
      && !Finishes(t)
      && if TooHeavy(t) then nBlockWeight > nBlockMaxWeight - 4000
         else TooLarge(t) && nBlockSize > nBlockMaxSize - 1000
    }

    /** Whether one transaction still fits; notices when the block is as good as full. */
    method TestForBlock(t: Txid) returns (ok: bool)
      requires t in pool
      modifies `lastFewTxs, `blockFinished
      ensures ok <==> !TooHeavy(t) && !TooLarge(t) && !TooManySigOps(t) && pool[t].isFinal
      ensures blockFinished == (old(blockFinished) || old(Finishes(t)))
      ensures lastFewTxs == old(lastFewTxs) + if old(Misses(t)) then 1 else 0
    {
      if nBlockWeight + pool[t].weight >= nBlockMaxWeight {
        if nBlockWeight > nBlockMaxWeight - 400 || lastFewTxs > 50 {
          blockFinished := true;
          return false;
        }
        if nBlockWeight > nBlockMaxWeight - 4000 { lastFewTxs := lastFewTxs + 1; }
        return false;
      }
      if fNeedSizeAccounting {
        if nBlockSize + pool[t].serSize >= nBlockMaxSize {
          if nBlockSize > nBlockMaxSize - 100 || lastFewTxs > 50 {
            blockFinished := true;
            return false;
          }
          if nBlockSize > nBlockMaxSize - 1000 { lastFewTxs := lastFewTxs + 1; }
          return false;
        }
      }
      if nBlockSigOpsCost + pool[t].sigops >= MAX_BLOCK_SIGOPS_COST {
        if nBlockSigOpsCost > MAX_BLOCK_SIGOPS_COST - 8 {
          blockFinished := true;
          return false;
        }
        return false;
      }
      return pool[t].isFinal;
    }

    /** Adds one transaction that depends on nothing outside the block, if it fits. */
    method TryPriority(t: Txid) returns (added: bool)
      requires Valid() && t in pool && t !in inBlock && pool[t].parents <= inBlock && fNeedSizeAccounting
               && (pool[t].hasWitness ==> fIncludeWitness)
      modifies this
      ensures Valid() && fNeedSizeAccounting && Limits() == old(Limits())
      ensures inBlock == if added then old(inBlock) + {t} else old(inBlock)
      ensures added <==> !Misfit(old(Limits()), t, old(inBlock))
      ensures added ==> blockFinished == old(blockFinished)
      ensures !added ==> nBlockSize == old(nBlockSize)
    {
      hide Sum, WellOrdered;
      added := TestForBlock(t);
      if added {
        WellOrderedClosed(pool, vtx);
        ParentsSuffice(pool, inBlock, t);
        AddToBlock(t);
      }
    }

    /** Fills the first part of the block by priority. The heap is a set from which any transaction may come next;
        `allowFree` says whether a transaction's priority is high enough to go on. */
    method AddPriorityTxs(blockPrioritySize: nat, allowFree: Txid -> bool)
      returns (ghost part: Part)
      requires Valid() && vtx == [] && nBlockSize == 1000 <= nBlockMaxSize && !blockFinished
      modifies this
      ensures Valid() && fNeedSizeAccounting == old(fNeedSizeAccounting)
      ensures var size := if nBlockMaxSize < blockPrioritySize then nBlockMaxSize else blockPrioritySize;
              part.block == inBlock && if size == 0 then inBlock == {} else Prioritised(Limits(), size, allowFree, part)
    {
      hide Sum, WellOrdered, GoodPool, Prioritised;
      part := Part({}, {}, map[], false);
      var nBlockPrioritySize := if nBlockMaxSize < blockPrioritySize then nBlockMaxSize else blockPrioritySize;
      assert inBlock == {};
      if nBlockPrioritySize == 0 { return; }
      NoSum(SerSizes(pool));
      var fSizeAccounting := fNeedSizeAccounting;
      fNeedSizeAccounting := true;
      part := PriorityLoop(nBlockPrioritySize, allowFree);
      ghost var b := Limits();
      fNeedSizeAccounting := fSizeAccounting;
      SizedOrNot(b, fSizeAccounting, nBlockPrioritySize, allowFree, part);
    }

    lemma SizeIs()
      requires Valid() && fNeedSizeAccounting
      ensures inBlock <= pool.Keys && nBlockSize == 1000 + Sum(SerSizes(pool), inBlock)
    {
    }

    /** The next transaction of the queue: it goes in, waits, or is left out. What waited for it may be tried again. */
    method NextPriority(iter: Txid, vecPriority: set<Txid>, waitPriMap: set<Txid>,
                        ghost misfits: map<Txid, set<Txid>>)
      returns (added: bool, queue: set<Txid>, waiting: set<Txid>, ghost misfits': map<Txid, set<Txid>>)
      requires Valid() && fNeedSizeAccounting && !blockFinished && iter in vecPriority
      requires Queued(Limits(), vecPriority, waitPriMap, misfits, inBlock)
      modifies this
      ensures Valid() && fNeedSizeAccounting && Limits() == old(Limits())
      ensures Queued(Limits(), queue, waiting, misfits', inBlock) && (blockFinished ==> misfits' != map[])
      ensures iter in pool && iter !in old(inBlock)
      ensures if added then inBlock == old(inBlock) + {iter}
              else inBlock == old(inBlock) && nBlockSize == old(nBlockSize) && queue == vecPriority - {iter}
                   && (misfits != map[] ==> misfits' != map[])
    {
      hide BlockAssembler.Valid, Misfit, Sum, Queued;
      ghost var b := Limits();
      QueuedKnown(b, vecPriority, waitPriMap, misfits, inBlock, iter);
      Dequeued(b, vecPriority, waitPriMap, misfits, inBlock, iter);
      added, queue, waiting, misfits' := false, vecPriority - {iter}, waitPriMap, misfits;
      assert iter !in inBlock;
      if !fIncludeWitness && pool[iter].hasWitness { return; }
      var dependent := IsStillDependent(iter);
      if dependent {
        waiting := waiting + {iter};
        return;
      }
      ghost var before := inBlock;
      added := TryPriority(iter);
      if added {
        var children := set c | c in waiting && iter in pool[c].parents;
        Requeued(b, vecPriority, waiting, misfits, before, iter, children);
        queue := queue + children;
        waiting := waiting - children;
      } else {
        misfits' := misfits[iter := before];
        assert iter in misfits';
      }
    }

    method PriorityLoop(nBlockPrioritySize: nat, allowFree: Txid -> bool)
      returns (ghost part: Part)
      requires Valid() && inBlock == {} && fNeedSizeAccounting && !blockFinished
      modifies this
      ensures Valid() && fNeedSizeAccounting && Limits() == old(Limits())
      ensures part.block == inBlock && Prioritised(Limits(), nBlockPrioritySize, allowFree, part)
    {
      hide BlockAssembler.Valid, Misfit, Sum, Queued, Prioritised;
      var vecPriority: set<Txid>, waitPriMap: set<Txid> := pool.Keys, {};
      ghost var b := Limits();
      ghost var misfits: map<Txid, set<Txid>> := map[];
      AllQueued(b);
      while vecPriority != {} && !blockFinished
        invariant Valid() && fNeedSizeAccounting && Limits() == b
        invariant Queued(b, vecPriority, waitPriMap, misfits, inBlock)
        invariant forall t :: t in inBlock ==> allowFree(t)
        invariant inBlock != {} ==> nBlockSize < nBlockPrioritySize
        invariant blockFinished ==> misfits != map[]
        decreases pool.Keys - inBlock, vecPriority
      {
        var iter :| iter in vecPriority;
        ghost var before, size := inBlock, nBlockSize;
        SizeIs();
        var added;
        added, vecPriority, waitPriMap, misfits := NextPriority(iter, vecPriority, waitPriMap, misfits);
        if added {
          assert iter in pool.Keys - before;
          if nBlockSize >= nBlockPrioritySize || !allowFree(iter) {
            part := Part(inBlock, {iter}, misfits, blockFinished);
            SizeIs();
            assert inBlock - {iter} == before;
            PartEnds(b, nBlockPrioritySize, allowFree, vecPriority, waitPriMap, part);
            return;
          }
        }
      }
      SizeIs();
      assert inBlock - {} == inBlock;
      part := Part(inBlock, {}, misfits, blockFinished);
      PartEnds(b, nBlockPrioritySize, allowFree, vecPriority, waitPriMap, part);
    }

    /** Adds one of several transactions there is room for. */
    method AddNext(x: Txid, ghost rest: set<Txid>)
      requires Valid() && Minable(x) && x !in inBlock && pool[x].anc <= inBlock && rest <= pool.Keys && x in rest
               && RoomFor(rest)
      modifies this
      ensures Valid() && vtx == old(vtx) + [x] && inBlock == old(inBlock) + {x}
      ensures fNeedSizeAccounting == old(fNeedSizeAccounting) && RoomFor(rest - {x})
    {
      hide Sum, WellOrdered, GoodPool;
      RoomStep(rest, x);
      AddToBlock(x);
    }

    lemma RoomStep(rest: set<Txid>, x: Txid)
      requires rest <= pool.Keys && RoomFor(rest) && x in rest
      ensures Fits(x)
      ensures && nBlockWeight + pool[x].weight + Sum(Weights(pool), rest - {x}) <= nBlockMaxWeight
              && nBlockSigOpsCost + pool[x].sigops + Sum(SigOps(pool), rest - {x}) < MAX_BLOCK_SIGOPS_COST
              && (fNeedSizeAccounting ==>
                    nBlockSize + pool[x].serSize + Sum(SerSizes(pool), rest - {x}) <= nBlockMaxSize)
    {
      hide Sum;
      SumRemove(Weights(pool), rest, x);
      SumRemove(SigOps(pool), rest, x);
      SumRemove(SerSizes(pool), rest, x);
      SumNonNegative(Weights(pool), rest - {x});
      SumNonNegative(SigOps(pool), rest - {x});
      SumNonNegative(SerSizes(pool), rest - {x});
    }
  }

  lemma NextSorted(s: seq<Txid>, i: nat, pkg: set<Txid>)
    requires i < |s| && Elems(s) == pkg && forall i, j :: 0 <= i < j < |s| ==> s[i] != s[j]
    ensures s[..i + 1] == s[..i] + [s[i]] && Elems(s[..i + 1]) == Elems(s[..i]) + {s[i]}
    ensures s[i] in pkg - Elems(s[..i]) && pkg - Elems(s[..i]) - {s[i]} == pkg - Elems(s[..i + 1])
  {
    assert s[i] in Elems(s);
    assert s[..i + 1] == s[..i] + [s[i]];
  }

  /** Assembles a block: reset, priority part, then packages. Every block that comes out lists each transaction once
      and after all it depends on, is within the weight, size and signature-operation limits, and its fees are the sum
      of the fees of its transactions. What is in it went in by priority or in a package that paid the minimum fee, and
      what is not is accounted for. If there is room for all and all pay, it holds the whole pool. */
  method CreateNewBlock(pool: Pool, blockMaxWeight: nat, blockMaxSize: nat, fIncludeWitness: bool,
                        blockPrioritySize: nat, allowFree: Txid -> bool,
                        order: seq<Txid>, prefers: (Txid, Totals, Txid, Totals) -> bool, minFee: int -> int)
    returns (vtx: seq<Txid>, nFees: int, weight: nat, sigOpsCost: nat, ghost part: Part, ghost log: seq<Tried>,
             ghost exit: Exit)
    requires GoodPool(pool) && forall i :: 0 <= i < |order| ==> order[i] in pool
    ensures WellOrdered(pool, vtx) && Elems(vtx) <= pool.Keys
    ensures nFees == Sum(Fees(pool), Elems(vtx))
    ensures weight == 4000 + Sum(Weights(pool), Elems(vtx)) <= Clamped(blockMaxWeight, 4000, 4000000 - 4000)
    ensures sigOpsCost == 400 + Sum(SigOps(pool), Elems(vtx)) < MAX_BLOCK_SIGOPS_COST
    ensures var maxSize := Clamped(blockMaxSize, 1000, 4000000 - 1000);
            maxSize < 4000000 - 1000 ==> 1000 + Sum(SerSizes(pool), Elems(vtx)) <= maxSize
    ensures forall t :: t in vtx ==> pool[t].isFinal && (pool[t].hasWitness ==> fIncludeWitness)
    ensures var b := BlockBounds(pool, blockMaxWeight, blockMaxSize, fIncludeWitness);
            var prioritySize := if b.maxSize < blockPrioritySize then b.maxSize else blockPrioritySize;
            && Accounted(b, minFee, order, part.block, log, exit, Elems(vtx))
            && (if prioritySize == 0 then part.block == {} else Prioritised(b, prioritySize, allowFree, part))
            && (Ample(b) && (forall t :: t in pool ==> t in order) ==>
                  (exit.Poor? && !Pays(pool, minFee)) || Elems(vtx) == pool.Keys)
  {
    var assembler := new BlockAssembler(pool, blockMaxWeight, blockMaxSize, fIncludeWitness);
    ghost var b := assembler.Limits();
    hide Accounted, Ample, Pays;
    part := assembler.AddPriorityTxs(blockPrioritySize, allowFree);
    var nPackagesSelected, nDescendantsUpdated;
    nPackagesSelected, nDescendantsUpdated, log, exit := assembler.AddPackageTxs(order, prefers, minFee);
    vtx, nFees, weight, sigOpsCost := assembler.vtx, assembler.nFees, assembler.nBlockWeight,
        assembler.nBlockSigOpsCost;
    assert forall t :: t in vtx ==> t in assembler.inBlock && assembler.Minable(t);
    if Ample(b) && forall t :: t in pool ==> t in order {
      TakesAll(b, minFee, order, part.block, log, exit, assembler.inBlock);
    }
  }

  /** The limits of a block under a configuration. */
  ghost function BlockBounds(pool: Pool, blockMaxWeight: nat, blockMaxSize: nat, fIncludeWitness: bool): Bounds {
    var maxSize := Clamped(blockMaxSize, 1000, 4000000 - 1000);
    Bounds(pool, Clamped(blockMaxWeight, 4000, 4000000 - 4000), maxSize, fIncludeWitness, maxSize < 4000000 - 1000)
  }
}
