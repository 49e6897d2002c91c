/** The totals that package selection keeps for transactions some of whose ancestors are already
    in the block. */
module Packages {

  import opened Mempool

  /** CTxMemPoolModifiedEntry */
  datatype Totals = Totals(size: int, fees: int, sigops: int)

  type Modified = map<Txid, Totals>

  /** Which ancestors have been taken off an entry's totals, and which of them first. */
  datatype Account = Account(taken: set<Txid>, first: Txid)

  type Ledger = map<Txid, Account>

  function StoredTotals(p: Pool, t: Txid): Totals
    requires t in p
  {
    Totals(p[t].sizeWithAnc, p[t].feesWithAnc, p[t].sigopsWithAnc)
  }

  /** With respect to the block transactions `counted` so far: a modified entry has had some counted ancestors taken
      off, each once, and all of them unless it failed before; an entry that is not modified has none. */
  ghost predicate Tracked(p: Pool, inBlock: set<Txid>, failed: set<Txid>, mod: Modified, sub: Ledger, d: Txid,
                          counted: set<Txid>)
    requires d in p && p[d].anc <= p.Keys
  {
    if d in mod then
      && d !in inBlock && d in sub && sub[d].first in sub[d].taken && sub[d].taken <= p[d].anc * counted
      && mod[d].size == p[d].sizeWithAnc - Sum(Sizes(p), sub[d].taken)
      && mod[d].sigops == p[d].sigopsWithAnc - Sum(SigOps(p), sub[d].taken)
      && mod[d].fees == p[d].feesWithAnc - Sum(Fees(p), sub[d].taken) - (p[sub[d].first].modFee - p[sub[d].first].fee)
      && (d !in failed ==> sub[d].taken == p[d].anc * counted)
    else d in inBlock || d in failed || p[d].anc !! counted
  }

  ghost predicate AllTracked(p: Pool, inBlock: set<Txid>, failed: set<Txid>, mod: Modified, sub: Ledger,
                             counted: set<Txid>) {
    && GoodPool(p) && mod.Keys <= p.Keys
    && forall d {:trigger GoodEntry(p, d)} :: d in p ==>
         GoodEntry(p, d)
         && Tracked(p, inBlock, failed, mod, sub, d, counted)
  }

  /** Every block transaction's ancestors are in the block. */
  ghost predicate Closed(p: Pool, inBlock: set<Txid>) {
    forall d {:trigger d in inBlock} :: d in inBlock ==> d in p && p[d].anc <= inBlock
  }

  lemma DependsOutside(p: Pool, closed: set<Txid>, it: Txid, d: Txid)
    requires Closed(p, closed) && d in p && it in p[d].anc && it !in closed
    ensures d !in closed
  {
  }

  // ------------------------------------------------------------ what the totals say

  lemma PackageShare(p: Pool, t: Txid, inBlock: set<Txid>, sub: set<Txid>, f: map<Txid, int>)
    requires t in p && GoodEntry(p, t) && t !in inBlock && sub <= p[t].anc * inBlock && f.Keys == p.Keys
             && forall x :: x in f ==> f[x] >= 0
    ensures Sum(f, p[t].anc + {t}) - Sum(f, sub) >= Sum(f, Package(p, t, inBlock))
    ensures sub == p[t].anc * inBlock ==> Sum(f, p[t].anc + {t}) - Sum(f, sub) == Sum(f, Package(p, t, inBlock))
  {
    hide Sum;
    var all, pkg := p[t].anc + {t}, Package(p, t, inBlock);
    SumSplit(f, all, sub);
    SumSplit(f, all - sub, pkg);
    SumNonNegative(f, all - sub - pkg);
    if sub == p[t].anc * inBlock { assert all - sub == pkg; }
  }

  /** A transaction that is not in the block, and what is kept for it. */
  ghost predicate Waiting(p: Pool, inBlock: set<Txid>, failed: set<Txid>, mod: Modified, sub: Ledger, t: Txid) {
    t in p && t !in inBlock && GoodEntry(p, t) && Tracked(p, inBlock, failed, mod, sub, t, inBlock)
  }

  lemma AllWaiting(p: Pool, inBlock: set<Txid>, failed: set<Txid>, mod: Modified, sub: Ledger, t: Txid)
    requires AllTracked(p, inBlock, failed, mod, sub, inBlock) && t in p && t !in inBlock
    ensures Waiting(p, inBlock, failed, mod, sub, t)
  {
    assert GoodEntry(p, t);
  }

  function Kept(p: Pool, mod: Modified, t: Txid): Totals
    requires t in p
  {
    if t in mod then mod[t] else StoredTotals(p, t)
  }

  /** The totals kept for a transaction never fall below those of the package it still needs; and they are exactly those
      unless the transaction failed before. */
  lemma TotalsCover(p: Pool, inBlock: set<Txid>, failed: set<Txid>, mod: Modified, sub: Ledger, t: Txid)
    requires Waiting(p, inBlock, failed, mod, sub, t)
    ensures var m := Kept(p, mod, t);
            var size, sigops := Sum(Sizes(p), Package(p, t, inBlock)), Sum(SigOps(p), Package(p, t, inBlock));
            && m.size >= size && m.sigops >= sigops
            && (t !in failed ==> m.size == size && m.sigops == sigops)
  {
    var s := if t in mod then sub[t].taken else {};
    PackageShare(p, t, inBlock, s, Sizes(p));
    PackageShare(p, t, inBlock, s, SigOps(p));
    assert t !in mod && t !in failed ==> s == p[t].anc * inBlock;
  }

  /** What prioritisation adds to the fees of a transaction. */
  function Deltas(p: Pool): map<Txid, int> { map t | t in p :: p[t].modFee - p[t].fee }

  lemma {:induction false} SumDeltas(p: Pool, s: set<Txid>)
    requires s <= p.Keys
    ensures Sum(ModFees(p), s) == Sum(Fees(p), s) + Sum(Deltas(p), s)
    decreases s
  {
    if s != {} {
      var x :| x in s;
      SumRemove(ModFees(p), s, x);
      SumRemove(Fees(p), s, x);
      SumRemove(Deltas(p), s, x);
      SumDeltas(p, s - {x});
    }
  }

  /** The modified fees of those of these transactions that are in the pool, and what prioritisation adds to them. */
  ghost function FeesOf(p: Pool, s: set<Txid>): int { Sum(ModFees(p), s * p.Keys) }

  ghost function Priority(p: Pool, s: set<Txid>): int { Sum(Deltas(p), s * p.Keys) }

  /** What was taken off the totals of a transaction, and what of it first. */
  ghost function Taken(mod: Modified, sub: Ledger, t: Txid): set<Txid> {
    if t in mod && t in sub then sub[t].taken else {}
  }

  ghost function First(mod: Modified, sub: Ledger, t: Txid): set<Txid> {
    if t in mod && t in sub then {sub[t].first} else {}
  }

  /** By how much the fees kept for a transaction exceed those of the package it still needs: the modified fees of the
      included ancestors that were not taken off, which only a transaction has that failed before, and the priority of
      those that were, but for the first. */
  ghost function Drift(p: Pool, inBlock: set<Txid>, mod: Modified, sub: Ledger, t: Txid): int
    requires t in p
  {
    FeesOf(p, p[t].anc * inBlock - Taken(mod, sub, t)) + Priority(p, Taken(mod, sub, t) - First(mod, sub, t))
  }

  lemma InPool(p: Pool, s: set<Txid>)
    requires s <= p.Keys
    ensures FeesOf(p, s) == Sum(ModFees(p), s) && Priority(p, s) == Sum(Deltas(p), s)
  {
    assert s * p.Keys == s;
  }

  /** What is left of the fees of `all` when those of `taken` are taken off, the first by its modified fee. */
  lemma LeftOver(p: Pool, all: set<Txid>, done: set<Txid>, taken: set<Txid>, first: set<Txid>)
    requires first <= taken <= done <= all <= p.Keys
    ensures Sum(ModFees(p), all) - Sum(Fees(p), taken) - Sum(Deltas(p), first)
            == Sum(ModFees(p), all - done) + Sum(ModFees(p), done - taken) + Sum(Deltas(p), taken - first)
  {
    hide Sum;
    SumSplit(ModFees(p), all, done);
    SumSplit(ModFees(p), done, taken);
    SumDeltas(p, taken);
    SumSplit(Deltas(p), taken, first);
  }

  lemma FeesKept(p: Pool, inBlock: set<Txid>, failed: set<Txid>, mod: Modified, sub: Ledger, t: Txid)
    requires Waiting(p, inBlock, failed, mod, sub, t)
    ensures First(mod, sub, t) <= Taken(mod, sub, t) <= p[t].anc * inBlock
    ensures t !in failed ==> Taken(mod, sub, t) == p[t].anc * inBlock
    ensures Kept(p, mod, t).fees == FeesOf(p, Package(p, t, inBlock)) + Drift(p, inBlock, mod, sub, t)
  {
    hide Sum, Waiting, Deltas, ModFees, Fees, First, Taken, FeesOf, Priority, Kept;
    WaitingIs(p, inBlock, failed, mod, sub, t);
    var all, done, taken, first := p[t].anc + {t}, p[t].anc * inBlock, Taken(mod, sub, t), First(mod, sub, t);
    assert all - done == Package(p, t, inBlock);
    LeftOver(p, all, done, taken, first);
    InPool(p, all - done);
    InPool(p, done - taken);
    InPool(p, taken - first);
  }

  /** What is known of the fees that are kept. */
  lemma WaitingIs(p: Pool, inBlock: set<Txid>, failed: set<Txid>, mod: Modified, sub: Ledger, t: Txid)
    requires Waiting(p, inBlock, failed, mod, sub, t)
    ensures t in p && t !in inBlock && p[t].anc <= p.Keys && t !in p[t].anc
    ensures First(mod, sub, t) <= Taken(mod, sub, t) <= p[t].anc * inBlock
    ensures t !in failed ==> Taken(mod, sub, t) == p[t].anc * inBlock
    ensures Kept(p, mod, t).fees == Sum(ModFees(p), p[t].anc + {t}) - Sum(Fees(p), Taken(mod, sub, t))
            - Sum(Deltas(p), First(mod, sub, t))
  {
    hide Sum;
    assert t !in mod && t !in failed ==> p[t].anc * inBlock == {};
    NoSum(Fees(p));
    NoSum(Deltas(p));
    if t in mod {
      SumAdd(Deltas(p), {}, sub[t].first);
      assert {} + {sub[t].first} == {sub[t].first};
    }
  }

  /** They are exact if and only if that is nothing, so for a transaction that did not fail before if and only if the
      priorities of its included ancestors but the first add up to nothing. */
  lemma FeesIff(p: Pool, inBlock: set<Txid>, failed: set<Txid>, mod: Modified, sub: Ledger, t: Txid)
    requires Waiting(p, inBlock, failed, mod, sub, t)
    ensures Kept(p, mod, t).fees == FeesOf(p, Package(p, t, inBlock)) <==> Drift(p, inBlock, mod, sub, t) == 0
    ensures t !in failed ==> Drift(p, inBlock, mod, sub, t) == Priority(p, p[t].anc * inBlock - First(mod, sub, t))
  {
    hide Sum, Waiting, Deltas, ModFees, Fees, First, Taken, FeesOf, Priority, Kept;
    WaitingIs(p, inBlock, failed, mod, sub, t);
    FeesKept(p, inBlock, failed, mod, sub, t);
    NoFees(p);
    if t !in failed { assert p[t].anc * inBlock - Taken(mod, sub, t) == {}; }
  }

  lemma NoFees(p: Pool)
    ensures FeesOf(p, {}) == 0 && Priority(p, {}) == 0
  {
    assert {} * p.Keys == {};
  }

  /** So without prioritised transactions the fees are exact. */
  lemma FeesExact(p: Pool, inBlock: set<Txid>, failed: set<Txid>, mod: Modified, sub: Ledger, t: Txid)
    requires Waiting(p, inBlock, failed, mod, sub, t) && t !in failed
    requires forall x :: x in p ==> p[x].modFee == p[x].fee
    ensures p[t].anc <= p.Keys && Kept(p, mod, t).fees == Sum(Fees(p), Package(p, t, inBlock))
  {
    hide Sum, Waiting, First, Taken, Drift, FeesOf, Priority, Kept;
    WaitingIs(p, inBlock, failed, mod, sub, t);
    FeesIff(p, inBlock, failed, mod, sub, t);
    NoPriority(p, p[t].anc * inBlock - First(mod, sub, t));
    NoPriority(p, Package(p, t, inBlock));
    InPool(p, Package(p, t, inBlock));
    SumDeltas(p, Package(p, t, inBlock));
  }

  lemma NoPriority(p: Pool, s: set<Txid>)
    requires s <= p.Keys && forall x :: x in p ==> p[x].modFee == p[x].fee
    ensures Priority(p, s) == 0
  {
    hide Sum;
    InPool(p, s);
    SumOfZeros(Deltas(p), s);
  }

  /** A chain of three transactions without fees, the middle one with its priority raised by 5. */
  const A := Txid(0)
  const B := Txid(1)
  const T := Txid(2)

  function Link(modFee: int, parents: set<Txid>, anc: set<Txid>, fees: int, n: nat): Entry {
    Entry(1, 1, 1, 0, modFee, 1, true, false, parents, anc, n, n, fees, n)
  }

  function Raised(): Pool {
    map[A := Link(0, {}, {}, 0, 1), B := Link(5, {A}, {A}, 5, 2), T := Link(0, {B}, {A, B}, 5, 3)]
  }

  lemma ChainSums(f: map<Txid, int>)
    requires f.Keys == {A, B, T}
    ensures Sum(f, {A}) == f[A] && Sum(f, {A, B}) == f[A] + f[B] && Sum(f, {A, B, T}) == f[A] + f[B] + f[T]
    ensures Sum(f, {T}) == f[T]
  {
    hide Sum;
    NoSum(f);
    SumAdd(f, {}, A);
    SumAdd(f, {A}, B);
    SumAdd(f, {A, B}, T);
    SumAdd(f, {}, T);
    assert {} + {A} == {A} && {A} + {B} == {A, B} && {A, B} + {T} == {A, B, T} && {} + {T} == {T};
  }

  lemma LinkGood(t: Txid)
    requires t in Raised()
    ensures GoodEntry(Raised(), t)
  {
    var p := Raised();
    LinkTotals(t);
    hide Sum;
    assert p[B].anc == {A} && p[A].anc == {};
    forall a | a in p[t].anc
      ensures p[a].anc <= p[t].anc && (a in p[t].parents || (B in p[t].parents && a in p[B].anc))
    {
    }
  }

  /** The totals of an entry of the chain. */
  lemma LinkTotals(t: Txid)
    requires t in Raised()
    ensures var p := Raised(); var e := p[t];
            && e.anc <= p.Keys && e.sizeWithAnc == Sum(Sizes(p), e.anc + {t})
            && e.sigopsWithAnc == Sum(SigOps(p), e.anc + {t}) && e.feesWithAnc == Sum(ModFees(p), e.anc + {t})
  {
    hide Sum;
    var p := Raised();
    assert p[t].anc + {t} == if t == A then {A} else if t == B then {A, B} else {A, B, T};
    ChainSums(Sizes(p));
    ChainSums(SigOps(p));
    ChainSums(ModFees(p));
  }

  /** Once both others are in the block, 5 is left over for the last one. */
  lemma FeesDrift()
    ensures GoodPool(Raised())
    ensures var p := Raised(); var mod := TakenOff(p, map[], A, T); var sub := Noted(map[], map[], A, T);
            var mod', sub' := TakenOff(p, mod, B, T), Noted(mod, sub, B, T);
            && Waiting(p, {A, B}, {}, mod', sub', T)
            && Kept(p, mod', T).fees == 5 && FeesOf(p, Package(p, T, {A, B})) == 0
  {
    hide Sum, GoodEntry, Tracked;
    var p := Raised();
    forall t | t in p ensures GoodEntry(p, t) { LinkGood(t); }
    var mod, sub := TakenOff(p, map[], A, T), Noted(map[], map[], A, T);
    NothingCounted(p, {A, B}, T);
    TakenOffTracked(p, {A, B}, {}, map[], map[], A, T, {});
    assert {} + {A} == {A} && {A} + {B} == {A, B};
    TakenOffTracked(p, {A, B}, {}, mod, sub, B, T, {A});
    ChainSums(ModFees(p));
    assert Package(p, T, {A, B}) * p.Keys == {T};
  }

  lemma NothingCounted(p: Pool, inBlock: set<Txid>, t: Txid)
    requires t in p && p[t].anc <= p.Keys
    ensures Tracked(p, inBlock, {}, map[], map[], t, {})
  {
  }

  // ------------------------------------------------------------ one inclusion

  /** An entry's totals without one more ancestor. The fee that is taken off differs between the first time and later
      ones. */
  function TakenOff(p: Pool, mod: Modified, it: Txid, d: Txid): Modified
    requires it in p && d in p
  {
    if d in mod
    then mod[d := Totals(mod[d].size - p[it].size, mod[d].fees - p[it].fee, mod[d].sigops - p[it].sigops)]
    else mod[d := Totals(p[d].sizeWithAnc - p[it].size, p[d].feesWithAnc - p[it].modFee,
        p[d].sigopsWithAnc - p[it].sigops)]
  }

  ghost function Noted(mod: Modified, sub: Ledger, it: Txid, d: Txid): Ledger {
    sub[d := if d in mod && d in sub then Account(sub[d].taken + {it}, sub[d].first) else Account({it}, it)]
  }

  lemma TakenOffTracked(p: Pool, inBlock: set<Txid>, failed: set<Txid>, mod: Modified, sub: Ledger, it: Txid, d: Txid,
                        counted: set<Txid>)
    requires d in p && p[d].anc <= p.Keys && it in p[d].anc && it !in counted && d !in inBlock
    requires Tracked(p, inBlock, failed, mod, sub, d, counted)
    ensures Tracked(p, inBlock, failed, TakenOff(p, mod, it, d), Noted(mod, sub, it, d), d, counted + {it})
  {
    hide Sum;
    var was := if d in mod then sub[d].taken else {};
    NoSum(Sizes(p));
    NoSum(SigOps(p));
    NoSum(Fees(p));
    SumAdd(Sizes(p), was, it);
    SumAdd(SigOps(p), was, it);
    SumAdd(Fees(p), was, it);
    assert was + {it} == Noted(mod, sub, it, d)[d].taken;
    if d !in failed {
      assert was == p[d].anc * counted;
      assert was + {it} == p[d].anc * (counted + {it});
    }
  }

  lemma NoSum(f: map<Txid, int>)
    ensures Sum(f, {}) == 0
  {
  }

  /** Entries that do not depend on a transaction are not affected by its inclusion. */
  lemma UnrelatedTracked(p: Pool, inBlock: set<Txid>, failed: set<Txid>, mod: Modified, sub: Ledger, it: Txid, d: Txid,
                         counted: set<Txid>)
    requires d in p && GoodEntry(p, d) && (it !in p[d].anc || d in inBlock)
    requires Tracked(p, inBlock, failed, mod, sub, d, counted)
    ensures Tracked(p, inBlock, failed, mod, sub, d, counted + {it})
  {
    if it !in p[d].anc { assert p[d].anc * (counted + {it}) == p[d].anc * counted; }
  }

  function Descendants(p: Pool, t: Txid): set<Txid> { set d | d in p && t in p[d].anc }

  /** All entries are tracked; those still in `todo` without the transaction `it`, the others with it. */
  ghost predicate HalfTracked(p: Pool, inBlock: set<Txid>, failed: set<Txid>, mod: Modified, sub: Ledger,
                              counted: set<Txid>, it: Txid, todo: set<Txid>) {
    && GoodPool(p) && mod.Keys <= p.Keys
    && forall d {:trigger GoodEntry(p, d)} :: d in p ==>
         GoodEntry(p, d) && Tracked(p, inBlock, failed, mod, sub, d, if d in todo then counted else counted + {it})
  }

  lemma HalfStart(p: Pool, inBlock: set<Txid>, failed: set<Txid>, mod: Modified, sub: Ledger, counted: set<Txid>,
                  it: Txid, added: set<Txid>)
    requires AllTracked(p, inBlock, failed, mod, sub, counted) && added <= inBlock
    ensures HalfTracked(p, inBlock, failed, mod, sub, counted, it, Descendants(p, it) - added)
  {
    var todo := Descendants(p, it) - added;
    forall d | d in p
      ensures GoodEntry(p, d) && Tracked(p, inBlock, failed, mod, sub, d, if d in todo then counted else counted + {it})
    {
      assert GoodEntry(p, d);
      if d !in todo { UnrelatedTracked(p, inBlock, failed, mod, sub, it, d, counted); }
    }
  }

  lemma HalfStep(p: Pool, inBlock: set<Txid>, failed: set<Txid>, mod: Modified, sub: Ledger, counted: set<Txid>,
                 it: Txid, todo: set<Txid>, d: Txid)
    requires HalfTracked(p, inBlock, failed, mod, sub, counted, it, todo) && it in p && it !in counted && d in todo
             && d in p && d !in inBlock && it in p[d].anc
    ensures HalfTracked(p, inBlock, failed, TakenOff(p, mod, it, d), Noted(mod, sub, it, d), counted, it, todo - {d})
  {
    var mod', sub' := TakenOff(p, mod, it, d), Noted(mod, sub, it, d);
    forall e | e in p
      ensures GoodEntry(p, e)
              && Tracked(p, inBlock, failed, mod', sub', e, if e in todo - {d} then counted else counted + {it})
    {
      assert GoodEntry(p, e);
      if e == d { TakenOffTracked(p, inBlock, failed, mod, sub, it, d, counted); }
    }
  }

  lemma HalfEnd(p: Pool, inBlock: set<Txid>, failed: set<Txid>, mod: Modified, sub: Ledger, counted: set<Txid>,
                it: Txid)
    requires HalfTracked(p, inBlock, failed, mod, sub, counted, it, {})
    ensures AllTracked(p, inBlock, failed, mod, sub, counted + {it})
  {
    forall d | d in p
      ensures GoodEntry(p, d) && Tracked(p, inBlock, failed, mod, sub, d, counted + {it})
    {
      assert GoodEntry(p, d);
    }
  }

  /** Takes newly included transactions off the totals of all that depend on them. */
  method UpdatePackagesForAdded(p: Pool, inBlock: set<Txid>, alreadyAdded: set<Txid>, mapModifiedTx: Modified,
                                ghost failed: set<Txid>, ghost sub: Ledger)
    returns (mod: Modified, ghost sub': Ledger, nDescendantsUpdated: nat)
    requires alreadyAdded <= inBlock && Closed(p, inBlock) && Closed(p, inBlock - alreadyAdded)
    requires AllTracked(p, inBlock, failed, mapModifiedTx, sub, inBlock - alreadyAdded)
    ensures AllTracked(p, inBlock, failed, mod, sub', inBlock) && mapModifiedTx.Keys <= mod.Keys
  {
    hide Tracked, GoodEntry, GoodPool;
    mod, sub', nDescendantsUpdated := mapModifiedTx, sub, 0;
    var todo := alreadyAdded;
    while todo != {}
      invariant todo <= alreadyAdded && AllTracked(p, inBlock, failed, mod, sub', inBlock - todo)
      invariant mapModifiedTx.Keys <= mod.Keys
      decreases todo
    {
      var it :| it in todo;
      ghost var counted := inBlock - todo;
      var n;
      mod, sub', n := UpdateFor(p, inBlock, alreadyAdded, it, mod, failed, sub', counted);
      nDescendantsUpdated := nDescendantsUpdated + n;
      todo := todo - {it};
      assert inBlock - todo == counted + {it};
    }
    assert inBlock - todo == inBlock;
  }

  method UpdateFor(p: Pool, ghost inBlock: set<Txid>, alreadyAdded: set<Txid>, it: Txid, mapModifiedTx: Modified,
                   ghost failed: set<Txid>, ghost sub: Ledger, ghost counted: set<Txid>)
    returns (mod: Modified, ghost sub': Ledger, n: nat)
    requires alreadyAdded <= inBlock && it in alreadyAdded && it in p && it !in counted
             && Closed(p, inBlock - alreadyAdded)
    requires AllTracked(p, inBlock, failed, mapModifiedTx, sub, counted)
    ensures AllTracked(p, inBlock, failed, mod, sub', counted + {it}) && mapModifiedTx.Keys <= mod.Keys
  {
    hide Tracked, GoodEntry, GoodPool;
    mod, sub', n := mapModifiedTx, sub, 0;
    var descendants := Descendants(p, it) - alreadyAdded;
    HalfStart(p, inBlock, failed, mod, sub', counted, it, alreadyAdded);
    while descendants != {}
      invariant descendants <= Descendants(p, it) - alreadyAdded
                && HalfTracked(p, inBlock, failed, mod, sub', counted, it, descendants)
                && mapModifiedTx.Keys <= mod.Keys
      decreases descendants
    {
      var desc :| desc in descendants;
      DependsOutside(p, inBlock - alreadyAdded, it, desc);
      HalfStep(p, inBlock, failed, mod, sub', counted, it, descendants, desc);
      sub' := Noted(mod, sub', it, desc);
      mod := TakenOff(p, mod, it, desc);
      n := n + 1;
      descendants := descendants - {desc};
    }
    HalfEnd(p, inBlock, failed, mod, sub', counted, it);
  }

  // ------------------------------------------------------------ failures and inclusions

  /** A failed entry may be dropped: it is remembered as failed. */
  lemma DropFailed(p: Pool, inBlock: set<Txid>, failed: set<Txid>, mod: Modified, sub: Ledger, t: Txid)
    requires AllTracked(p, inBlock, failed, mod, sub, inBlock)
    ensures AllTracked(p, inBlock, failed + {t}, mod - {t}, sub, inBlock)
  {
    forall d | d in p
      ensures GoodEntry(p, d) && Tracked(p, inBlock, failed + {t}, mod - {t}, sub, d, inBlock)
    {
      assert GoodEntry(p, d);
    }
  }

  /** Transactions that enter the block leave the modified entries; the rest is yet to be updated for them. */
  lemma DropIncluded(p: Pool, inBlock: set<Txid>, failed: set<Txid>, mod: Modified, sub: Ledger, pkg: set<Txid>)
    requires AllTracked(p, inBlock, failed, mod, sub, inBlock)
    ensures AllTracked(p, inBlock + pkg, failed, mod - pkg, sub, inBlock)
  {
    forall d | d in p
      ensures GoodEntry(p, d) && Tracked(p, inBlock + pkg, failed, mod - pkg, sub, d, inBlock)
    {
      assert GoodEntry(p, d);
    }
  }

  lemma StartTracked(p: Pool, inBlock: set<Txid>)
    requires GoodPool(p)
    ensures AllTracked(p, inBlock, {}, map[], map[], {})
  {
    forall d | d in p
      ensures GoodEntry(p, d) && Tracked(p, inBlock, {}, map[], map[], d, {})
    {
      assert GoodEntry(p, d);
    }
  }
}
