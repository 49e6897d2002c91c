/** What block assembly tried and why it stopped, as a record that says why each transaction is in
    the block or not. It is the same whatever the comparators prefer. */
module Selection {

  import opened Mempool
  import opened Packages

  /** The pool, and the limits of a block. `sized` says whether serialized sizes are accounted for. */
  datatype Bounds = Bounds(pool: Pool, maxWeight: nat, maxSize: nat, segwit: bool, sized: bool)

  predicate MayBeMined(b: Bounds, t: Txid) {
    t in b.pool && b.pool[t].isFinal && (b.pool[t].hasWitness ==> b.segwit)
  }

  /** One package that was tested: its transaction, the totals kept for it, the block before, and the outcome. */
  datatype Tried = Tried(tx: Txid, totals: Totals, before: set<Txid>, added: bool)

  /** Why the selection ended: nothing was left, a package paid too little, or the block was nearly full and too many
      packages in a row had no room. */
  datatype Exit = Drained | Poor(tx: Txid, totals: Totals) | Full

  /** No room by weight or signature operations. */
  ghost predicate NoRoom(b: Bounds, m: Totals, block: set<Txid>) {
    && block <= b.pool.Keys
    && (4000 + Sum(Weights(b.pool), block) + 4 * m.size >= b.maxWeight
        || 400 + Sum(SigOps(b.pool), block) + m.sigops >= 80000)
  }

  /** No room by weight or signature operations, or for its transactions together by size, or one of them may not be
      mined. */
  ghost predicate Refuses(b: Bounds, t: Txid, m: Totals, block: set<Txid>)
    requires t in b.pool && block <= b.pool.Keys && Package(b.pool, t, block) <= b.pool.Keys
  {
    || NoRoom(b, m, block)
    || (exists x :: x in Package(b.pool, t, block) && !MayBeMined(b, x))
    || (b.sized && 1000 + Sum(SerSizes(b.pool), block) + Sum(SerSizes(b.pool), Package(b.pool, t, block)) >= b.maxSize)
  }

  /** The totals are those of the package that is not in the block; the fees too, where none was modified. */
  ghost predicate Exact(p: Pool, t: Txid, m: Totals, block: set<Txid>)
    requires t in p && Package(p, t, block) <= p.Keys
  {
    && m.size == Sum(Sizes(p), Package(p, t, block)) && m.sigops == Sum(SigOps(p), Package(p, t, block))
    && (Unmodified(p) ==> m.fees == Sum(Fees(p), Package(p, t, block)))
  }

  ghost predicate Unmodified(p: Pool) { forall x :: x in p ==> p[x].modFee == p[x].fee }

  /** The transactions whose packages were refused, and those of the packages that were added. */
  ghost function Refused(log: seq<Tried>): set<Txid> {
    if log == [] then {} else
      var r := log[|log| - 1];
      Refused(log[..|log| - 1]) + if r.added then {} else {r.tx}
  }

  ghost function Included(p: Pool, log: seq<Tried>): set<Txid> {
    if log == [] then {} else
      var r := log[|log| - 1];
      Included(p, log[..|log| - 1]) + if r.added && r.tx in p then Package(p, r.tx, r.before) else {}
  }

  /** How many packages had no room since the last one that was added. */
  ghost function Failures(b: Bounds, log: seq<Tried>): (n: nat) {
    if log == [] || log[|log| - 1].added then 0 else
      var r := log[|log| - 1];
      Failures(b, log[..|log| - 1]) + if NoRoom(b, r.totals, r.before) then 1 else 0
  }

  /** The block is nearly full, and the last package had no room, one of more than 1000 since one was added. */
  ghost predicate GivesUp(b: Bounds, log: seq<Tried>) {
    && log != []
    && var r := log[|log| - 1];
       && !r.added && NoRoom(b, r.totals, r.before) && Failures(b, log) > 1000
       && 4000 + Sum(Weights(b.pool), r.before) > b.maxWeight - 4000
  }

  /** There was no reason to give up on the way. */
  ghost predicate Persists(b: Bounds, log: seq<Tried>) {
    log == [] || (Persists(b, log[..|log| - 1]) && !GivesUp(b, log))
  }

  /** What was tested paid the minimum fee of its size. Its totals were exact, unless it had been refused before. It was
      refused exactly if there was a reason. */
  ghost predicate Justified(b: Bounds, minFee: int -> int, earlier: set<Txid>, r: Tried) {
    && r.tx in b.pool && r.tx !in r.before && r.before <= b.pool.Keys
    && Package(b.pool, r.tx, r.before) <= b.pool.Keys
    && r.totals.fees >= minFee(r.totals.size)
    && (r.tx !in earlier ==> Exact(b.pool, r.tx, r.totals, r.before))
    && (r.added <==> !Refuses(b, r.tx, r.totals, r.before))
  }

  ghost predicate AllJustified(b: Bounds, minFee: int -> int, log: seq<Tried>) {
    log == [] ||
    (&& AllJustified(b, minFee, log[..|log| - 1])
     && Justified(b, minFee, Refused(log[..|log| - 1]), log[|log| - 1]))
  }

  /** The block holds what it held at the start and the packages that were added. If nothing was left in the end, every
      transaction in `order` is in the block or was refused; otherwise a package paid too little, or it gave up, which
      it does at the first reason to. */
  ghost predicate Accounted(b: Bounds, minFee: int -> int, order: seq<Txid>, start: set<Txid>, log: seq<Tried>,
                            exit: Exit, block: set<Txid>)
  {
    && start <= block <= b.pool.Keys && block == start + Included(b.pool, log) && AllJustified(b, minFee, log)
    && (exit != Full ==> Persists(b, log))
    && match exit
       case Drained => forall t :: t in order ==> t in block + Refused(log)
       case Poor(t, m) =>
         && t in b.pool && t !in block && Package(b.pool, t, block) <= b.pool.Keys && m.fees < minFee(m.size)
         && (t !in Refused(log) ==> Exact(b.pool, t, m, block))
       case Full => GivesUp(b, log) && Persists(b, log[..|log| - 1]) && block == log[|log| - 1].before
  }

  /** What was gone through of `order` is in `all`. */
  ghost predicate Covered(order: seq<Txid>, n: nat, all: set<Txid>) {
    n <= |order| && forall k :: 0 <= k < n ==> order[k] in all
  }

  lemma CoverNone(order: seq<Txid>, all: set<Txid>)
    ensures Covered(order, 0, all)
  {
  }

  lemma CoverMore(order: seq<Txid>, n: nat, n': nat, all: set<Txid>, all': set<Txid>)
    requires Covered(order, n, all) && all <= all' && n <= n' <= n + 1 && n' <= |order|
    requires n' == n + 1 ==> order[n] in all'
    ensures Covered(order, n', all')
  {
  }

  lemma EmptyLog(b: Bounds, minFee: int -> int)
    ensures AllJustified(b, minFee, []) && Refused([]) == {} && Included(b.pool, []) == {}
  {
  }

  lemma LogMore(b: Bounds, minFee: int -> int, log: seq<Tried>, r: Tried)
    requires AllJustified(b, minFee, log) && Justified(b, minFee, Refused(log), r)
    ensures AllJustified(b, minFee, log + [r])
    ensures Refused(log + [r]) == Refused(log) + if r.added then {} else {r.tx}
    ensures Included(b.pool, log + [r]) ==
            Included(b.pool, log) + if r.added then Package(b.pool, r.tx, r.before) else {}
  {
    hide Justified;
    assert (log + [r])[..|log|] == log;
    assert Justified(b, minFee, Refused(log), r) ==> r.tx in b.pool by { JustifiedKnown(b, minFee, Refused(log), r); }
  }

  lemma NothingFailed(b: Bounds)
    ensures Failures(b, []) == 0 && Persists(b, [])
  {
  }

  lemma GivesUpIff(b: Bounds, log: seq<Tried>, r: Tried)
    ensures GivesUp(b, log + [r]) <==>
            && !r.added && NoRoom(b, r.totals, r.before) && Failures(b, log + [r]) > 1000
            && 4000 + Sum(Weights(b.pool), r.before) > b.maxWeight - 4000
  {
    hide NoRoom, Failures;
    assert (log + [r])[|log + [r]| - 1] == r;
  }

  lemma FailuresMore(b: Bounds, log: seq<Tried>, r: Tried)
    ensures Failures(b, log + [r]) ==
            if r.added then 0 else Failures(b, log) + if NoRoom(b, r.totals, r.before) then 1 else 0
    ensures Persists(b, log + [r]) <==> Persists(b, log) && !GivesUp(b, log + [r])
  {
    assert (log + [r])[..|log|] == log;
  }

  lemma JustifiedKnown(b: Bounds, minFee: int -> int, earlier: set<Txid>, r: Tried)
    requires Justified(b, minFee, earlier, r)
    ensures r.tx in b.pool
  {
  }

  /** The totals kept for a transaction that did not fail before are exact. */
  lemma KeptExact(p: Pool, inBlock: set<Txid>, failed: set<Txid>, mod: Modified, sub: Ledger, t: Txid)
    requires AllTracked(p, inBlock, failed, mod, sub, inBlock) && t in p && t !in inBlock
    ensures Package(p, t, inBlock) <= p.Keys && (t !in failed ==> Exact(p, t, Kept(p, mod, t), inBlock))
  {
    hide Sum, AllTracked, Waiting, Kept;
    AllWaiting(p, inBlock, failed, mod, sub, t);
    WaitingIs(p, inBlock, failed, mod, sub, t);
    TotalsCover(p, inBlock, failed, mod, sub, t);
    if t !in failed && Unmodified(p) { FeesExact(p, inBlock, failed, mod, sub, t); }
  }

  // ------------------------------------------------------------ the part by priority

  /** One transaction has no room, or is not final. */
  ghost predicate Misfit(b: Bounds, t: Txid, block: set<Txid>) {
    && t in b.pool && block <= b.pool.Keys
    && (|| 4000 + Sum(Weights(b.pool), block) + b.pool[t].weight >= b.maxWeight
        || 1000 + Sum(SerSizes(b.pool), block) + b.pool[t].serSize >= b.maxSize
        || 400 + Sum(SigOps(b.pool), block) + b.pool[t].sigops >= 80000
        || !b.pool[t].isFinal)
  }

  /** The part of a block that was filled by priority: its last transaction, if that put an end to it; what did not fit,
      with the block as it was then; and whether the block was found to be as good as full. */
  datatype Part = Part(block: set<Txid>, last: set<Txid>, misfits: map<Txid, set<Txid>>, finished: bool)

  /** In a block filled by priority all transactions but one had a priority that is high enough, and stayed below the
      size of that part. Each transaction that was tested and left out did not fit the block as it was. If neither the
      priority nor the size nor a nearly full block put an end to it, all that is left out was tested, has an unwanted
      witness, or waits for a parent. */
  ghost predicate Prioritised(b: Bounds, prioritySize: nat, allowFree: Txid -> bool, part: Part) {
    && part.block <= b.pool.Keys && part.last <= part.block && |part.last| <= 1
    && (forall t :: t in part.misfits ==> Misfit(b, t, part.misfits[t]) && part.misfits[t] <= part.block)
    && (forall t :: t in part.block - part.last ==> allowFree(t))
    && (part.block - part.last != {} ==> 1000 + Sum(SerSizes(b.pool), part.block - part.last) < prioritySize)
    && (part.last != {} ==>
          1000 + Sum(SerSizes(b.pool), part.block) >= prioritySize || forall t :: t in part.last ==> !allowFree(t))
    && (part.finished ==> part.misfits != map[])
    && (!part.finished && part.last == {} ==>
          forall t :: t in b.pool && t !in part.block && t !in part.misfits ==>
            (b.pool[t].hasWitness && !b.segwit) || !(b.pool[t].parents <= part.block))
  }

  /** Each transaction is in the block, in the queue, waiting for a parent, a misfit, or has an unwanted witness. */
  ghost predicate Queued(b: Bounds, queue: set<Txid>, waiting: set<Txid>, misfits: map<Txid, set<Txid>>,
                         block: set<Txid>) {
    && queue + waiting <= b.pool.Keys && queue !! waiting && queue + waiting !! block && block <= b.pool.Keys
    && (forall t :: t in misfits ==> Misfit(b, t, misfits[t]) && misfits[t] <= block)
    && (forall t :: t in waiting ==> !(b.pool[t].parents <= block))
    && (forall t :: t in b.pool && t !in block + queue + waiting && t !in misfits ==> b.pool[t].hasWitness && !b.segwit)
  }

  lemma SizedOrNot(b: Bounds, sized: bool, prioritySize: nat, allowFree: Txid -> bool, part: Part)
    requires Prioritised(b, prioritySize, allowFree, part)
    ensures Prioritised(b.(sized := sized), prioritySize, allowFree, part)
  {
    hide Sum;
    forall t | t in part.misfits ensures Misfit(b.(sized := sized), t, part.misfits[t]) {
      assert Misfit(b, t, part.misfits[t]);
    }
  }

  lemma AllQueued(b: Bounds)
    ensures Queued(b, b.pool.Keys, {}, map[], {})
  {
  }

  lemma QueuedKnown(b: Bounds, queue: set<Txid>, waiting: set<Txid>, misfits: map<Txid, set<Txid>>, block: set<Txid>,
                    t: Txid)
    requires Queued(b, queue, waiting, misfits, block) && t in queue
    ensures t in b.pool && t !in block && waiting <= b.pool.Keys
  {
  }

  lemma PartEnds(b: Bounds, prioritySize: nat, allowFree: Txid -> bool, queue: set<Txid>, waiting: set<Txid>,
                 part: Part)
    requires Queued(b, queue, waiting, part.misfits, part.block) && part.last <= part.block && |part.last| <= 1
    requires forall t :: t in part.block - part.last ==> allowFree(t)
    requires part.block - part.last != {} ==> 1000 + Sum(SerSizes(b.pool), part.block - part.last) < prioritySize
    requires part.last != {} ==>
               1000 + Sum(SerSizes(b.pool), part.block) >= prioritySize || forall t :: t in part.last ==> !allowFree(t)
    requires (part.finished ==> part.misfits != map[]) && (queue == {} || part.finished || part.last != {})
    ensures Prioritised(b, prioritySize, allowFree, part)
  {
    hide Misfit, Sum;
  }

  /** What becomes of the next transaction of the queue. */
  lemma Dequeued(b: Bounds, queue: set<Txid>, waiting: set<Txid>, misfits: map<Txid, set<Txid>>, block: set<Txid>,
                 t: Txid)
    requires Queued(b, queue, waiting, misfits, block) && t in queue
    ensures b.pool[t].hasWitness && !b.segwit ==> Queued(b, queue - {t}, waiting, misfits, block)
    ensures !(b.pool[t].parents <= block) ==> Queued(b, queue - {t}, waiting + {t}, misfits, block)
    ensures Misfit(b, t, block) ==> Queued(b, queue - {t}, waiting, misfits[t := block], block)
  {
    hide Misfit;
  }

  /** After an addition those that waited for it alone go back to the queue. */
  lemma Requeued(b: Bounds, queue: set<Txid>, waiting: set<Txid>, misfits: map<Txid, set<Txid>>, block: set<Txid>,
                 t: Txid, children: set<Txid>)
    requires Queued(b, queue, waiting, misfits, block) && t in queue
    requires children <= waiting && forall c :: c in waiting - children ==> t !in b.pool[c].parents
    ensures Queued(b, queue - {t} + children, waiting - children, misfits, block + {t})
  {
    hide Misfit;
    forall c | c in waiting - children ensures !(b.pool[c].parents <= block + {t}) {
      var x :| x in b.pool[c].parents && x !in block;
      assert x != t;
    }
  }

  // ------------------------------------------------------------ room for all

  /** Every transaction may be mined, and all fit strictly within the limits. */
  ghost predicate Ample(b: Bounds) {
    && GoodPool(b.pool) && (forall t :: t in b.pool ==> MayBeMined(b, t))
    && 4000 + 4 * Sum(Sizes(b.pool), b.pool.Keys) < b.maxWeight && 400 + Sum(SigOps(b.pool), b.pool.Keys) < 80000
    && (b.sized ==> 1000 + Sum(SerSizes(b.pool), b.pool.Keys) < b.maxSize)
  }

  /** No fee was modified, and any transactions together pay the minimum fee of their size. */
  ghost predicate Pays(p: Pool, minFee: int -> int) {
    && Unmodified(p)
    && forall s: set<Txid> :: s != {} && s <= p.Keys ==> Sum(Fees(p), s) >= minFee(Sum(Sizes(p), s))
  }

  lemma PartOf(p: Pool, f: map<Txid, int>, block: set<Txid>, pkg: set<Txid>)
    requires f.Keys == p.Keys && block <= p.Keys && pkg <= p.Keys && block !! pkg && forall x :: x in f ==> f[x] >= 0
    ensures Sum(f, block) + Sum(f, pkg) <= Sum(f, p.Keys)
  {
    hide Sum;
    var rest := p.Keys - block;
    SumSplit(f, p.Keys, block);
    SumSplit(f, rest, pkg);
    SumNonNegative(f, rest - pkg);
  }

  lemma AmpleNotRefused(b: Bounds, t: Txid, m: Totals, block: set<Txid>)
    requires Ample(b) && t in b.pool && t !in block && block <= b.pool.Keys
             && Package(b.pool, t, block) <= b.pool.Keys && Exact(b.pool, t, m, block)
    ensures !Refuses(b, t, m, block)
  {
    hide Sum;
    var p, pkg := b.pool, Package(b.pool, t, block);
    PartOf(p, Sizes(p), block, pkg);
    PartOf(p, SigOps(p), block, pkg);
    PartOf(p, SerSizes(p), block, pkg);
    LightAsSizes(p, block);
  }

  lemma PackagePays(p: Pool, minFee: int -> int, t: Txid, m: Totals, block: set<Txid>)
    requires Pays(p, minFee) && t in p && t !in block && Package(p, t, block) <= p.Keys && Exact(p, t, m, block)
    ensures m.fees >= minFee(m.size)
  {
    hide Sum;
    assert t in Package(p, t, block);
  }

  lemma LightAsSizes(p: Pool, block: set<Txid>)
    requires GoodPool(p) && block <= p.Keys
    ensures Sum(Weights(p), block) <= 4 * Sum(Sizes(p), block)
  {
    forall x | x in block ensures Weights(p)[x] <= 4 * Sizes(p)[x] { assert GoodEntry(p, x); }
    SumScaled(Weights(p), Sizes(p), block, 4);
  }

  lemma {:induction false} NoneRefused(b: Bounds, minFee: int -> int, log: seq<Tried>)
    requires Ample(b) && AllJustified(b, minFee, log)
    ensures Refused(log) == {}
  {
    hide Ample, Refuses, Exact;
    if log != [] {
      var front, r := log[..|log| - 1], log[|log| - 1];
      NoneRefused(b, minFee, front);
      AmpleNotRefused(b, r.tx, r.totals, r.before);
    }
  }

  /** With ample room and an order that covers the pool, the whole pool goes into the block, whatever is preferred,
      unless some package pays too little; and where all pay none does. */
  lemma TakesAll(b: Bounds, minFee: int -> int, order: seq<Txid>, start: set<Txid>, log: seq<Tried>, exit: Exit,
                 block: set<Txid>)
    requires Ample(b) && Accounted(b, minFee, order, start, log, exit, block)
    requires forall t :: t in b.pool ==> t in order
    ensures exit.Poor? || block == b.pool.Keys
    ensures Pays(b.pool, minFee) ==> block == b.pool.Keys
  {
    hide Ample, Pays, Refuses, Exact, Sum;
    NoneRefused(b, minFee, log);
    if exit.Poor? && Pays(b.pool, minFee) { PackagePays(b.pool, minFee, exit.tx, exit.totals, block); }
  }
}
