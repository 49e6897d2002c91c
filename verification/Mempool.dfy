/** The part of the memory pool that block assembly reads: a finite acyclic graph of transactions,
    with the totals over unconfirmed ancestors that every entry carries. */
module Mempool {

  datatype Txid = Txid(hash: int)

  datatype Entry = Entry(
    size: nat,               // GetTxSize
    weight: nat,             // GetTxWeight
    sigops: nat,             // GetSigOpCost
    fee: int,                // GetFee
    modFee: int,             // GetModifiedFee
    serSize: nat,            // serialized size
    isFinal: bool,
    hasWitness: bool,
    parents: set<Txid>,      // GetMemPoolParents
    anc: set<Txid>,          // CalculateMemPoolAncestors
    sizeWithAnc: nat,
    sigopsWithAnc: nat,
    feesWithAnc: int,
    countWithAnc: nat)

  type Pool = map<Txid, Entry>

  // ------------------------------------------------------------ sums

  ghost function Sum(f: map<Txid, int>, s: set<Txid>): int
    requires s <= f.Keys
  {
    if s == {} then 0 else var x :| x in s; f[x] + Sum(f, s - {x})
  }

  lemma {:induction false} SumRemove(f: map<Txid, int>, s: set<Txid>, y: Txid)
    requires s <= f.Keys && y in s
    ensures Sum(f, s) == f[y] + Sum(f, s - {y})
    decreases s
  {
    var x :| x in s && Sum(f, s) == f[x] + Sum(f, s - {x});
    if x != y {
      SumRemove(f, s - {x}, y);
      SumRemove(f, s - {y}, x);
      assert s - {x} - {y} == s - {y} - {x};
    }
  }

  lemma SumAdd(f: map<Txid, int>, s: set<Txid>, y: Txid)
    requires s <= f.Keys && y in f && y !in s
    ensures Sum(f, s + {y}) == Sum(f, s) + f[y]
  {
    SumRemove(f, s + {y}, y);
    assert s + {y} - {y} == s;
  }

  lemma {:induction false} SumSplit(f: map<Txid, int>, s: set<Txid>, t: set<Txid>)
    requires s <= f.Keys && t <= s
    ensures Sum(f, s) == Sum(f, t) + Sum(f, s - t)
    decreases t
  {
    if t == {} {
      assert s - t == s;
    } else {
      var x :| x in t;
      SumRemove(f, s, x);
      SumRemove(f, t, x);
      SumSplit(f, s - {x}, t - {x});
      assert s - {x} - (t - {x}) == s - t;
    }
  }

  lemma {:induction false} SumScaled(f: map<Txid, int>, g: map<Txid, int>, s: set<Txid>, k: int)
    requires s <= f.Keys && s <= g.Keys && forall x :: x in s ==> f[x] <= k * g[x]
    ensures Sum(f, s) <= k * Sum(g, s)
    decreases s
  {
    if s != {} {
      var x :| x in s;
      SumRemove(f, s, x);
      SumRemove(g, s, x);
      SumScaled(f, g, s - {x}, k);
      assert k * (g[x] + Sum(g, s - {x})) == k * g[x] + k * Sum(g, s - {x});
    }
  }

  lemma SumNonNegative(f: map<Txid, int>, s: set<Txid>)
    requires s <= f.Keys && forall x :: x in s ==> f[x] >= 0
    ensures Sum(f, s) >= 0
  {
    SumScaled(map x | x in s :: 0, f, s, 1);
    SumZero(s);
  }

  lemma {:induction false} SumZero(s: set<Txid>)
    ensures Sum(map x | x in s :: 0, s) == 0
    decreases s
  {
    SumOfZeros(map x | x in s :: 0, s);
  }

  lemma {:induction false} SumOfZeros(f: map<Txid, int>, s: set<Txid>)
    requires s <= f.Keys && forall x :: x in s ==> f[x] == 0
    ensures Sum(f, s) == 0
    decreases s
  {
    if s != {} {
      var x :| x in s;
      SumRemove(f, s, x);
      SumOfZeros(f, s - {x});
    }
  }

  // ------------------------------------------------------------ the graph

  function Sizes(p: Pool): map<Txid, int> { map t | t in p :: p[t].size }
  function Weights(p: Pool): map<Txid, int> { map t | t in p :: p[t].weight }
  function SigOps(p: Pool): map<Txid, int> { map t | t in p :: p[t].sigops }
  function Fees(p: Pool): map<Txid, int> { map t | t in p :: p[t].fee }
  function ModFees(p: Pool): map<Txid, int> { map t | t in p :: p[t].modFee }
  function SerSizes(p: Pool): map<Txid, int> { map t | t in p :: p[t].serSize }

  /** The entry's ancestors are its parents and theirs, never itself, and its totals are sums over them and itself. */
  ghost predicate GoodEntry(p: Pool, t: Txid)
    requires t in p
  {
    var e := p[t];
    && e.parents <= e.anc <= p.Keys && t !in e.anc
    && (forall a :: a in e.anc ==> p[a].anc <= e.anc)
    && (forall a :: a in e.anc ==> a in e.parents || exists q :: q in e.parents && a in p[q].anc)
    && e.sizeWithAnc == Sum(Sizes(p), e.anc + {t}) && e.sigopsWithAnc == Sum(SigOps(p), e.anc + {t})
    && e.feesWithAnc == Sum(ModFees(p), e.anc + {t}) && e.countWithAnc == |e.anc| + 1
    && e.weight <= 4 * e.size
  }

  ghost predicate GoodPool(p: Pool) {
    forall t {:trigger GoodEntry(p, t)} :: t in p ==> GoodEntry(p, t)
  }

  /** A transaction and what it needs that is not in the block yet. */
  function Package(p: Pool, t: Txid, inBlock: set<Txid>): set<Txid>
    requires t in p
  {
    p[t].anc - inBlock + {t}
  }

  /** An ancestor has fewer ancestors. */
  lemma FewerAncestors(p: Pool, a: Txid, t: Txid)
    requires GoodPool(p) && t in p && a in p[t].anc
    ensures a in p && p[a].countWithAnc < p[t].countWithAnc
  {
    assert GoodEntry(p, t);
    assert GoodEntry(p, a);
    assert p[a].anc + {a} <= p[t].anc;
    SubsetSize(p[a].anc + {a}, p[t].anc);
    assert |p[a].anc + {a}| == |p[a].anc| + 1;
  }

  lemma {:induction false} SubsetSize(a: set<Txid>, b: set<Txid>)
    requires a <= b
    ensures |a| <= |b|
    decreases a
  {
    if a != {} {
      var x :| x in a;
      SubsetSize(a - {x}, b - {x});
      assert |b - {x}| == |b| - 1;
    }
  }
}
