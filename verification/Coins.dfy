/** The stack of write-back coin caches over the coin database.

    Level 0 is the database; level `k` is the cache whose base is level `k - 1`.
    The theorem is that whatever the caches do with their DIRTY and FRESH
    shortcuts, what each level answers is what a plain map would answer that had
    the same updates applied to it directly. */
module Coins {

  datatype Option<+T> = None | Some(value: T)

  type Txid = int

  datatype TxOut = TxOut(nValue: int, script: seq<nat>) {
    predicate IsNull() { nValue == -1 }
  }

  const NULL_OUT := TxOut(-1, [])

  datatype CoinSet = CoinSet(fCoinBase: bool, vout: seq<TxOut>, nHeight: int, nVersion: int) {
    predicate IsPruned() { forall out :: out in vout ==> out.IsNull() }
  }

  const NO_COINS := CoinSet(false, [], 0, 0)

  /** The outputs without the spent ones at the end. */
  function Trim(vout: seq<TxOut>): (r: seq<TxOut>)
    ensures r <= vout && (r != [] ==> !r[|r| - 1].IsNull())
    ensures forall i :: |r| <= i < |vout| ==> vout[i].IsNull()
  {
    if vout != [] && vout[|vout| - 1].IsNull() then Trim(vout[..|vout| - 1]) else vout
  }

  function Cleanup(c: CoinSet): CoinSet { c.(vout := Trim(c.vout)) }

  /** Cleaning drops null outputs at the end, all of them, and nothing else. */
  lemma CleanupOnly(c: CoinSet, i: nat)
    ensures Cleanup(c).(vout := c.vout) == c && Cleanup(c).vout <= c.vout
    ensures i >= |Cleanup(c).vout| <==> forall j :: i <= j < |c.vout| ==> c.vout[j].IsNull()
  {
    var r := Cleanup(c).vout;
    if i < |r| { assert c.vout[|r| - 1] == r[|r| - 1]; }
  }

  lemma CleanupKeepsPruned(c: CoinSet)
    ensures Cleanup(c).IsPruned() == c.IsPruned()
    ensures c.IsPruned() <==> Cleanup(c).vout == []
  {
    var r := Trim(c.vout);
    assert r != [] ==> !r[|r| - 1].IsNull() && r[|r| - 1] in r && r[|r| - 1] in c.vout;
    if r == [] {
      forall out | out in c.vout ensures out.IsNull() {
        var i :| 0 <= i < |c.vout| && c.vout[i] == out;
      }
    }
  }

  predicate Available(c: CoinSet, nPos: nat) { nPos < |c.vout| && !c.vout[nPos].IsNull() }

  function Spent(c: CoinSet, nPos: nat): CoinSet
    requires Available(c, nPos)
  {
    Cleanup(c.(vout := c.vout[nPos := NULL_OUT]))
  }

  /** Spending takes away exactly one output and leaves all others as they were. */
  lemma SpendsOne(c: CoinSet, nPos: nat, i: nat)
    requires Available(c, nPos)
    ensures Available(Spent(c, nPos), i) <==> i != nPos && Available(c, i)
    ensures Available(Spent(c, nPos), i) ==> Spent(c, nPos).vout[i] == c.vout[i]
    ensures Spent(c, nPos).(vout := c.vout) == c
    ensures Spent(c, nPos).IsPruned() <==> forall j :: 0 <= j < |c.vout| && j != nPos ==> c.vout[j].IsNull()
  {
    var d := c.(vout := c.vout[nPos := NULL_OUT]);
    CleanupKeepsPruned(d);
    PrunedIff(d);
    var r := Trim(d.vout);
    assert i < |r| ==> r[i] == d.vout[i];
    assert |r| <= i < |d.vout| ==> d.vout[i].IsNull();
    assert forall j :: 0 <= j < |c.vout| ==> d.vout[j] == if j == nPos then NULL_OUT else c.vout[j];
    assert NULL_OUT.IsNull();
  }

  lemma PrunedIff(c: CoinSet)
    ensures c.IsPruned() <==> forall j :: 0 <= j < |c.vout| ==> c.vout[j].IsNull()
  {
    if c.IsPruned() {
      forall j | 0 <= j < |c.vout| ensures c.vout[j].IsNull() { assert c.vout[j] in c.vout; }
    }
  }

  datatype Entry = Entry(coins: CoinSet, dirty: bool, isFresh: bool)
  type Cache = map<Txid, Entry>

  /** `modifier` is the txid of the open CCoinsModifier of the topmost cache. */
  datatype Tower = Tower(db: map<Txid, CoinSet>, levels: seq<Cache>, modifier: Option<Txid>)

  // ------------------------------------------------------------ what a level answers

  /** What GetCoins of level `k` finds. */
  function Get(t: Tower, k: nat, txid: Txid): Option<CoinSet>
    requires k <= |t.levels|
  {
    if k == 0 then if txid in t.db then Some(t.db[txid]) else None
    else if txid in t.levels[k - 1] then Some(t.levels[k - 1][txid].coins)
    else Get(t, k - 1, txid)
  }

  /** Absent and fully spent mean the same. */
  function Unspent(o: Option<CoinSet>): Option<CoinSet> {
    if o.Some? && !o.value.IsPruned() then o else None
  }

  function View(t: Tower, k: nat, txid: Txid): Option<CoinSet>
    requires k <= |t.levels|
  {
    Unspent(Get(t, k, txid))
  }

  /** What the flags of an entry of level `k` claim about the level below. */
  ghost predicate EntryOk(t: Tower, k: nat, txid: Txid) {
    && 0 < k <= |t.levels| && txid in t.levels[k - 1]
    && var e := t.levels[k - 1][txid];
       && (e.isFresh ==> View(t, k - 1, txid) == None)
       && (!e.dirty ==> Unspent(Some(e.coins)) == View(t, k - 1, txid))
  }

  ghost predicate FlagsOk(t: Tower) {
    forall k, txid {:trigger EntryOk(t, k, txid)} :: 0 < k <= |t.levels| && txid in t.levels[k - 1] ==>
        EntryOk(t, k, txid)
  }

  ghost predicate Valid(t: Tower) {
    && FlagsOk(t)
    && (t.modifier.Some? ==> |t.levels| > 0 && t.modifier.value in t.levels[|t.levels| - 1]
                             && t.levels[|t.levels| - 1][t.modifier.value].dirty)
  }

  // ------------------------------------------------------------ operations

  /** The tower after GetCoins of level `k`, which pulls the entry into every cache on the way. */
  function Fetch(t: Tower, k: nat, txid: Txid): Tower
    requires k <= |t.levels|
    ensures |Fetch(t, k, txid).levels| == |t.levels|
  {
    if k == 0 || txid in t.levels[k - 1] then t else
      var t1 := Fetch(t, k - 1, txid);
      match Get(t, k - 1, txid)
      case None => t1
      case Some(c) => t1.(levels := t1.levels[k - 1 := t1.levels[k - 1][txid := Entry(c, false, c.IsPruned())]])
  }

  function SetTop(t: Tower, txid: Txid, e: Entry): Tower
    requires |t.levels| > 0
  {
    var n := |t.levels|;
    t.(levels := t.levels[n - 1 := t.levels[n - 1][txid := e]])
  }

  function DropTop(t: Tower, txid: Txid): Tower
    requires |t.levels| > 0
  {
    var n := |t.levels|;
    t.(levels := t.levels[n - 1 := t.levels[n - 1] - {txid}])
  }

  /** ModifyCoins up to the point where it hands the modifier out. */
  function BeginModify(t: Tower, txid: Txid): Tower
    requires |t.levels| > 0
  {
    var n := |t.levels|;
    var e := if txid in t.levels[n - 1] then t.levels[n - 1][txid] else
               match Get(t, n - 1, txid)
               case None => Entry(NO_COINS, false, true)
               case Some(c) => Entry(c, false, c.IsPruned());
    var t1 := if txid in t.levels[n - 1] then t else Fetch(t, n - 1, txid);
    SetTop(t1, txid, e.(dirty := true)).(modifier := Some(txid))
  }

  /** ModifyNewCoins throws when a non-coinbase finds unspent coins in its own cache. */
  predicate NewCoinsThrows(t: Tower, txid: Txid, coinbase: bool)
    requires |t.levels| > 0
  {
    !coinbase && txid in t.levels[|t.levels| - 1] && !t.levels[|t.levels| - 1][txid].coins.IsPruned()
  }

  function BeginNew(t: Tower, txid: Txid, coinbase: bool): Tower
    requires |t.levels| > 0
  {
    var n := |t.levels|;
    var e := if txid in t.levels[n - 1] then t.levels[n - 1][txid] else Entry(NO_COINS, false, false);
    SetTop(t, txid, Entry(NO_COINS, true, e.isFresh || (!coinbase && !e.dirty))).(modifier := Some(txid))
  }

  /** A change made through the modifier. */
  function Write(t: Tower, coins: CoinSet): Tower
    requires t.modifier.Some? && |t.levels| > 0 && t.modifier.value in t.levels[|t.levels| - 1]
  {
    SetTop(t, t.modifier.value, t.levels[|t.levels| - 1][t.modifier.value].(coins := coins))
  }

  /** The modifier's destructor. */
  function EndModify(t: Tower): Tower
    requires t.modifier.Some? && |t.levels| > 0 && t.modifier.value in t.levels[|t.levels| - 1]
  {
    var txid := t.modifier.value;
    var e := t.levels[|t.levels| - 1][txid];
    var c := Cleanup(e.coins);
    (if e.isFresh && c.IsPruned() then DropTop(t, txid) else SetTop(t, txid, e.(coins := c))).(modifier := None)
  }

  function Uncached(t: Tower, k: nat, txid: Txid): Tower
    requires 0 < k <= |t.levels|
  {
    var cache := t.levels[k - 1];
    if txid in cache && !cache[txid].dirty && !cache[txid].isFresh
    then t.(levels := t.levels[k - 1 := cache - {txid}]) else t
  }

  /** BatchWrite, for one entry of the child and what the parent cache has under that txid. */
  function Merged(child: Entry, us: Option<Entry>): Option<Entry> {
    if !child.dirty then us
    else match us
      case None => if child.isFresh
          && child.coins.IsPruned() then None else Some(Entry(child.coins, true, child.isFresh))
      case Some(u) => if u.isFresh && child.coins.IsPruned() then None else Some(Entry(child.coins, true, u.isFresh))
  }

  function Find<V>(m: map<Txid, V>, txid: Txid): Option<V> {
    if txid in m then Some(m[txid]) else None
  }

  function MergedCache(child: Cache, us: Cache): Cache {
    map txid | txid in child.Keys + us.Keys && MergedAt(child, us, txid).Some? :: MergedAt(child, us, txid).value
  }

  function MergedAt(child: Cache, us: Cache, txid: Txid): Option<Entry> {
    if txid in child then Merged(child[txid], Find(us, txid)) else Find(us, txid)
  }

  function WrittenAt(child: Cache, db: map<Txid, CoinSet>, txid: Txid): Option<CoinSet> {
    if txid in child && child[txid].dirty then Unspent(Some(child[txid].coins)) else Find(db, txid)
  }

  function WrittenDb(child: Cache, db: map<Txid, CoinSet>): map<Txid, CoinSet> {
    map txid | txid in child.Keys + db.Keys && WrittenAt(child, db, txid).Some? :: WrittenAt(child, db, txid).value
  }

  function Flushed(t: Tower, k: nat): Tower
    requires 0 < k <= |t.levels|
  {
    if k == 1 then t.(db := WrittenDb(t.levels[0], t.db), levels := t.levels[0 := map[]])
    else t.(levels := t.levels[k - 2 := MergedCache(t.levels[k - 1], t.levels[k - 2])][k - 1 := map[]])
  }

  // ------------------------------------------------------------ lemmas

  lemma {:induction false} GetSame(t: Tower, t': Tower, k: nat, j: nat, txid: Txid)
    requires j <= k <= |t.levels| && k <= |t'.levels|
    requires forall i :: j <= i < k ==> Find(t'.levels[i], txid) == Find(t.levels[i], txid)
    requires View(t', j, txid) == View(t, j, txid)
    ensures View(t', k, txid) == View(t, k, txid)
  {
    if j < k {
      GetSame(t, t', k - 1, j, txid);
      assert Find(t'.levels[k - 1], txid) == Find(t.levels[k - 1], txid);
    }
  }

  ghost predicate Extends(c: Cache, c': Cache) {
    forall x :: x in c ==> x in c' && c'[x] == c[x]
  }

  /** Fetching changes what no level answers, and keeps the flags honest. */
  lemma {:induction false} FetchKeeps(t: Tower, k: nat, txid: Txid)
    requires FlagsOk(t) && k <= |t.levels|
    ensures var t' := Fetch(t, k, txid);
            && FlagsOk(t') && t'.db == t.db && t'.modifier == t.modifier
            && (forall i :: k <= i < |t.levels| ==> t'.levels[i] == t.levels[i])
            && (forall i :: 0 <= i < |t.levels| ==> Extends(t.levels[i], t'.levels[i]))
            && (forall j, x :: 0 <= j <= |t.levels| ==> View(t', j, x) == View(t, j, x))
            && Get(t', k, txid) == Get(t, k, txid)
  {
    if k > 0 && txid !in t.levels[k - 1] {
      FetchKeeps(t, k - 1, txid);
      var t1 := Fetch(t, k - 1, txid);
      match Get(t, k - 1, txid)
      case None =>
      case Some(c) => InsertKeeps(t1, k, txid, Entry(c, false, c.IsPruned()));
        forall j, x | 0 <= j <= |t.levels| ensures View(Fetch(t, k, txid), j, x) == View(t, j, x) {
          assert View(t1, j, x) == View(t, j, x);
        }
    }
  }

  lemma FetchValid(t: Tower, k: nat, txid: Txid)
    requires Valid(t) && k <= |t.levels|
    ensures var t' := Fetch(t, k, txid);
            Valid(t') && t'.modifier == t.modifier
                && forall j, x :: 0 <= j <= |t.levels| ==> View(t', j, x) == View(t, j, x)
  {
    FetchKeeps(t, k, txid);
    if t.modifier.Some? {
      var n := |t.levels|;
      var c, c' := t.levels[n - 1], Fetch(t, k, txid).levels[n - 1];
      var m: Txid := t.modifier.value;
      assert Extends(c, c') && m in c && c[m].dirty;
    }
  }

  /** Putting a clean copy of the base's answer into a cache changes no answer. */
  lemma InsertKeeps(t: Tower, k: nat, txid: Txid, e: Entry)
    requires FlagsOk(t) && 0 < k <= |t.levels| && txid !in t.levels[k - 1]
    requires Unspent(Some(e.coins)) == View(t, k - 1, txid) && (e.isFresh ==> View(t, k - 1, txid) == None)
    ensures var t' := t.(levels := t.levels[k - 1 := t.levels[k - 1][txid := e]]);
            FlagsOk(t') && forall j, x :: 0 <= j <= |t.levels| ==> View(t', j, x) == View(t, j, x)
  {
    var t' := t.(levels := t.levels[k - 1 := t.levels[k - 1][txid := e]]);
    forall j, x | 0 <= j <= |t.levels| ensures View(t', j, x) == View(t, j, x) {
      if j < k || x != txid { GetBelow(t, t', j, x); }
      else {
        GetBelow(t, t', k - 1, x);
        assert View(t', k, x) == View(t, k, x);
        GetSame(t, t', j, k, x);
      }
    }
    forall j, x | 0 < j <= |t'.levels| && x in t'.levels[j - 1] ensures EntryOk(t', j, x) {
      if j != k || x != txid { assert EntryOk(t, j, x); }
    }
  }

  lemma {:induction false} GetBelow(t: Tower, t': Tower, k: nat, txid: Txid)
    requires k <= |t.levels| && k <= |t'.levels| && Find(t.db, txid) == Find(t'.db, txid)
    requires forall i :: 0 <= i < k ==> Find(t'.levels[i], txid) == Find(t.levels[i], txid)
    ensures Get(t', k, txid) == Get(t, k, txid)
  {
    if k > 0 {
      GetBelow(t, t', k - 1, txid);
      assert Find(t'.levels[k - 1], txid) == Find(t.levels[k - 1], txid);
    }
  }

  /** A change to one entry of the topmost cache is seen there under that txid and nowhere else. */
  lemma TopChange(t: Tower, t': Tower, top: Cache, txid: Txid)
    requires FlagsOk(t) && |t.levels| > 0 && t'.db == t.db && t'.levels == t.levels[|t.levels| - 1 := top]
    requires forall x :: x != txid ==> Find(top, x) == Find(t.levels[|t.levels| - 1], x)
    requires txid in top ==>
               var e := top[txid];
               && (e.isFresh ==> View(t, |t.levels| - 1, txid) == None)
               && (!e.dirty ==> Unspent(Some(e.coins)) == View(t, |t.levels| - 1, txid))
    ensures FlagsOk(t')
    ensures forall j, x :: 0 <= j <= |t.levels| && (j < |t.levels| || x != txid) ==> View(t', j, x) == View(t, j, x)
  {
    forall j, x | 0 <= j <= |t.levels| && (j < |t.levels| || x != txid) ensures View(t', j, x) == View(t, j, x) {
      GetBelow(t, t', j, x);
    }
    forall j, x | 0 < j <= |t'.levels| && x in t'.levels[j - 1] ensures EntryOk(t', j, x) {
      if j < |t.levels| || x != txid {
        assert Find(top, x) == Find(t.levels[|t.levels| - 1], x) || j < |t.levels|;
        assert EntryOk(t, j, x);
      }
    }
  }

  /** The next cache above level k that has an entry under the id can live with a new view of what is below. */
  predicate UpperFine(t: Tower, k: nat, txid: Txid, below: Option<CoinSet>)
    requires k <= |t.levels|
    decreases |t.levels| - k
  {
    if k == |t.levels| then true
    else if txid in t.levels[k] then
      var u := t.levels[k][txid];
      (u.isFresh ==> below == None) && (!u.dirty ==> Unspent(Some(u.coins)) == below)
    else UpperFine(t, k + 1, txid, below)
  }

  /** A change below the top is sound exactly if the next cache above that has the entry can live with it: a clean or
      fresh copy there goes stale otherwise. */
  lemma ChangeBelowIff(t: Tower, k: nat, txid: Txid, e: Entry)
    requires FlagsOk(t) && 0 < k <= |t.levels|
    requires (e.isFresh ==> View(t, k - 1, txid) == None)
             && (!e.dirty ==> Unspent(Some(e.coins)) == View(t, k - 1, txid))
    ensures var t' := t.(levels := t.levels[k - 1 := t.levels[k - 1][txid := e]]);
            FlagsOk(t') <==> UpperFine(t, k, txid, Unspent(Some(e.coins)))
  {
    var t' := t.(levels := t.levels[k - 1 := t.levels[k - 1][txid := e]]);
    GetBelow(t, t', k - 1, txid);
    assert View(t', k, txid) == Unspent(Some(e.coins));
    StaleAbove(t, t', k, txid);
    forall j, x | 0 < j <= |t'.levels| && x in t'.levels[j - 1] && (j <= k || x != txid) ensures EntryOk(t', j, x) {
      if j == k && x == txid {
      } else {
        assert EntryOk(t, j, x);
        GetBelow(t, t', j - 1, x);
      }
    }
  }

  lemma {:induction false} StaleAbove(t: Tower, t': Tower, k: nat, txid: Txid)
    requires FlagsOk(t) && k <= |t.levels| == |t'.levels|
             && forall i :: k <= i < |t.levels| ==> t'.levels[i] == t.levels[i]
    ensures UpperFine(t, k, txid, View(t', k, txid)) <==>
            forall j {:trigger EntryOk(t', j, txid)} :: k < j <= |t.levels| && txid in t.levels[j - 1] ==>
                EntryOk(t', j, txid)
    decreases |t.levels| - k
  {
    if k < |t.levels| {
      assert t'.levels[k] == t.levels[k];
      if txid in t.levels[k] {
        assert EntryOk(t', k + 1, txid) <==> UpperFine(t, k, txid, View(t', k, txid));
        forall j | k + 1 < j <= |t.levels| && txid in t.levels[j - 1] ensures EntryOk(t', j, txid) {
          assert EntryOk(t, j, txid);
          GetSame(t, t', j - 1, k + 1, txid);
        }
      } else {
        StaleAbove(t, t', k + 1, txid);
      }
    }
  }

  /** A copy fetched by a cache goes stale when the cache below it is changed. */
  lemma CopyGoesStale(txid: Txid, c: CoinSet, d: CoinSet)
    requires !c.IsPruned() && !d.IsPruned() && c != d
    ensures var t := Tower(map[txid := c], [map[txid := Entry(c, false, false)], map[txid := Entry(c, false, false)]],
              None);
            FlagsOk(t) && !FlagsOk(t.(levels := t.levels[0 := map[txid := Entry(d, true, false)]]))
  {
    var t := Tower(map[txid := c], [map[txid := Entry(c, false, false)], map[txid := Entry(c, false, false)]], None);
    assert View(t, 0, txid) == Some(c) && View(t, 1, txid) == Some(c);
    assert FlagsOk(t);
    ChangeBelowIff(t, 1, txid, Entry(d, true, false));
    assert t.levels[0][txid := Entry(d, true, false)] == map[txid := Entry(d, true, false)];
  }

  lemma BeginModifyKeeps(t: Tower, txid: Txid)
    requires Valid(t) && |t.levels| > 0
    ensures var t' := BeginModify(t, txid);
            Valid(t') && |t'.levels| == |t.levels|
                && forall j, x :: 0 <= j <= |t.levels| ==> View(t', j, x) == View(t, j, x)
  {
    var n := |t.levels|;
    var t' := BeginModify(t, txid);
    var t1 := if txid in t.levels[n - 1] then t else Fetch(t, n - 1, txid);
    if txid in t.levels[n - 1] { assert EntryOk(t, n, txid); } else { FetchKeeps(t, n - 1, txid); }
    assert View(t1, n - 1, txid) == View(t, n - 1, txid);
    TopChange(t1, t', t'.levels[n - 1], txid);
    forall j, x | 0 <= j <= n ensures View(t', j, x) == View(t, j, x) {
      assert View(t1, j, x) == View(t, j, x);
    }
  }

  /** Starting new coins wipes the entry, and keeps the flags honest exactly when the cache
      already had an entry or nothing below is unspent: the check of BIP 30 that callers owe. */
  lemma BeginNewKeeps(t: Tower, txid: Txid, coinbase: bool)
    requires Valid(t) && |t.levels| > 0 && !NewCoinsThrows(t, txid, coinbase)
    ensures var t' := BeginNew(t, txid, coinbase); var n := |t.levels|;
            Valid(t') <==> coinbase || txid in t.levels[n - 1] || View(t, n - 1, txid) == None
    ensures var t' := BeginNew(t, txid, coinbase);
            Valid(t') ==>
              && View(t', |t.levels|, txid) == None
              && forall j, x :: 0 <= j <= |t.levels| && (j < |t.levels| || x != txid) ==>
                 View(t', j, x) == View(t, j, x)
  {
    var n := |t.levels|;
    var t' := BeginNew(t, txid, coinbase);
    if txid in t.levels[n - 1] { assert EntryOk(t, n, txid); }
    if coinbase || txid in t.levels[n - 1] || View(t, n - 1, txid) == None {
      TopChange(t, t', t'.levels[n - 1], txid);
    } else {
      GetBelow(t, t', n - 1, txid);
      assert !EntryOk(t', n, txid);
    }
  }

  lemma WriteKeeps(t: Tower, coins: CoinSet)
    requires Valid(t) && t.modifier.Some?
    ensures var t' := Write(t, coins); var n := |t.levels|; var txid := t.modifier.value;
            && Valid(t') && View(t', n, txid) == Unspent(Some(coins))
            && forall j, x :: 0 <= j <= n && (j < n || x != txid) ==> View(t', j, x) == View(t, j, x)
  {
    assert EntryOk(t, |t.levels|, t.modifier.value);
    var t' := Write(t, coins);
    TopChange(t, t', t'.levels[|t.levels| - 1], t.modifier.value);
  }

  function CleanView(o: Option<CoinSet>): Option<CoinSet> {
    if o.Some? then Some(Cleanup(o.value)) else None
  }

  lemma EndModifyKeeps(t: Tower)
    requires Valid(t) && t.modifier.Some?
    ensures var t' := EndModify(t); var n := |t.levels|; var txid := t.modifier.value;
            && Valid(t') && |t'.levels| == n && View(t', n, txid) == CleanView(View(t, n, txid))
            && forall j, x :: 0 <= j <= n && (j < n || x != txid) ==> View(t', j, x) == View(t, j, x)
  {
    var n, txid := |t.levels|, t.modifier.value;
    assert EntryOk(t, n, txid);
    CleanupKeepsPruned(t.levels[n - 1][txid].coins);
    TopChange(t, EndModify(t), EndModify(t).levels[n - 1], txid);
  }

  lemma UncacheKeeps(t: Tower, k: nat, txid: Txid)
    requires Valid(t) && 0 < k <= |t.levels|
    ensures var t' := Uncached(t, k, txid);
            Valid(t') && |t'.levels| == |t.levels|
                && forall j, x :: 0 <= j <= |t.levels| ==> View(t', j, x) == View(t, j, x)
  {
    var t' := Uncached(t, k, txid);
    if t' != t {
      assert EntryOk(t, k, txid);
      forall j, x | 0 <= j <= |t.levels| ensures View(t', j, x) == View(t, j, x) {
        if j < k || x != txid { GetBelow(t, t', j, x); }
        else {
          GetBelow(t, t', k - 1, x);
          assert View(t', k, x) == View(t, k, x);
          GetSame(t, t', j, k, x);
        }
      }
      forall j, x | 0 < j <= |t'.levels| && x in t'.levels[j - 1] ensures EntryOk(t', j, x) { assert EntryOk(t, j, x); }
    }
  }

  /** BatchWrite never meets a FRESH entry over unspent coins, so its logic_error cannot be thrown. */
  lemma FreshNeverMisapplied(t: Tower, k: nat, txid: Txid)
    requires FlagsOk(t) && 1 < k <= |t.levels| && txid in t.levels[k - 1] && txid in t.levels[k - 2]
    ensures !(t.levels[k - 1][txid].isFresh && !t.levels[k - 2][txid].coins.IsPruned())
  {
    assert EntryOk(t, k, txid);
  }

  lemma FlushBelow(t: Tower, k: nat, x: Txid)
    requires FlagsOk(t) && 0 < k <= |t.levels|
    ensures View(Flushed(t, k), k - 1, x) == View(t, k, x) == View(Flushed(t, k), k, x)
  {
    var t' := Flushed(t, k);
    assert x in t.levels[k - 1] ==> EntryOk(t, k, x);
    if k > 1 {
      assert x in t.levels[k - 2] ==> EntryOk(t, k - 1, x);
      GetBelow(t, t', k - 2, x);
      var m := MergedAt(t.levels[k - 1], t.levels[k - 2], x);
      assert Find(t'.levels[k - 2], x) == m;
      assert Get(t', k - 1, x) == if m.Some? then Some(m.value.coins) else Get(t, k - 2, x);
      assert Get(t, k, x) == if x in t.levels[k - 1] then Some(t.levels[k - 1][x].coins) else Get(t, k - 1, x);
      assert Get(t, k - 1, x) == if x in t.levels[k - 2] then Some(t.levels[k - 2][x].coins) else Get(t, k - 2, x);
    } else {
      assert Find(t'.db, x) == WrittenAt(t.levels[0], t.db, x);
      assert Get(t', 0, x) == Find(t'.db, x) && Get(t, 0, x) == Find(t.db, x);
      assert Get(t, 1, x) == if x in t.levels[0] then Some(t.levels[0][x].coins) else Get(t, 0, x);
    }
  }

  /** Flush moves a cache's view down one level: the base now answers what the cache answered,
      every level from the cache up answers as before, and so does every level below the base. */
  lemma FlushKeeps(t: Tower, k: nat)
    requires Valid(t) && 0 < k <= |t.levels| && (k < |t.levels| || t.modifier.None?)
    ensures var t' := Flushed(t, k);
            && Valid(t') && |t'.levels| == |t.levels|
            && forall j, x :: 0 <= j <= |t.levels| ==> View(t', j, x) == View(t, if j == k - 1 then k else j, x)
  {
    var t' := Flushed(t, k);
    forall j, x | 0 <= j <= |t.levels| ensures View(t', j, x) == View(t, if j == k - 1 then k else j, x) {
      FlushBelow(t, k, x);
      if j < k - 1 { GetBelow(t, t', j, x); }
      else if j > k { GetSame(t, t', j, k, x); }
    }
    forall j, x | 0 < j <= |t'.levels| && x in t'.levels[j - 1] ensures EntryOk(t', j, x) {
      if j == k - 1 {
        assert Find(t'.levels[k - 2], x) == MergedAt(t.levels[k - 1], t.levels[k - 2], x);
        assert View(t', k - 2, x) == View(t, k - 2, x);
        assert x in t.levels[k - 1] ==> EntryOk(t, k, x);
        assert x in t.levels[k - 2] ==> EntryOk(t, k - 1, x);
      } else {
        assert EntryOk(t, j, x);
        assert View(t', j - 1, x) == View(t, j - 1, x);
      }
    }
  }

  // ------------------------------------------------------------ the plain reference

  /** One plain map of unspent coins per level, updated directly. */
  datatype Plain = Plain(maps: seq<map<Txid, CoinSet>>, modifier: Option<Txid>)

  datatype Op =
    | OpPush | OpPop
    | OpFetch(k: nat, txid: Txid)
    | OpModify(txid: Txid)
    | OpNew(txid: Txid, coinbase: bool)
    | OpWrite(coins: CoinSet)
    | OpEnd
    | OpUncache(k: nat, txid: Txid)
    | OpFlush(k: nat)

  function Put(m: map<Txid, CoinSet>, txid: Txid, c: CoinSet): map<Txid, CoinSet> {
    if c.IsPruned() then m - {txid} else m[txid := c]
  }

  /** What callers owe: levels that exist, one modifier at a time, and for new coins of a
      non-coinbase transaction nothing unspent under that txid. */
  ghost predicate Allowed(p: Plain, op: Op) {
    && |p.maps| > 0
    && var n := |p.maps| - 1;
    match op
    case OpPush => p.modifier.None?
    case OpPop => p.modifier.None? && n > 0
    case OpFetch(k, _) => k <= n
    case OpModify(_) => p.modifier.None? && n > 0
    case OpNew(txid, coinbase) => p.modifier.None? && n > 0 && (coinbase || txid !in p.maps[n])
    case OpWrite(_) => p.modifier.Some? && n > 0
    case OpEnd => p.modifier.Some? && n > 0
    case OpUncache(k, _) => 0 < k <= n
    case OpFlush(k) => p.modifier.None? && 0 < k <= n
  }

  function PlainStep(p: Plain, op: Op): Plain
    requires Allowed(p, op)
  {
    var n := |p.maps| - 1;
    match op
    case OpPush => p.(maps := p.maps + [p.maps[n]])
    case OpPop => p.(maps := p.maps[..n])
    case OpFetch(_, _) => p
    case OpModify(txid) => p.(modifier := Some(txid))
    case OpNew(txid, _) => p.(maps := p.maps[n := p.maps[n] - {txid}], modifier := Some(txid))
    case OpWrite(c) => p.(maps := p.maps[n := Put(p.maps[n], p.modifier.value, c)])
    case OpEnd =>
      var txid := p.modifier.value;
      p.(maps := p.maps[n := if txid in p.maps[n] then p.maps[n][txid := Cleanup(p.maps[n][txid])] else p.maps[n]],
          modifier := None)
    case OpUncache(_, _) => p
    case OpFlush(k) => p.(maps := p.maps[k - 1 := p.maps[k]])
  }

  ghost predicate Agree(t: Tower, p: Plain) {
    && |p.maps| == |t.levels| + 1 && p.modifier == t.modifier
    && forall k, x :: 0 <= k <= |t.levels| ==> View(t, k, x) == Find(p.maps[k], x)
  }

  function Step(t: Tower, op: Op, ghost p: Plain): Tower
    requires Valid(t) && Agree(t, p) && Allowed(p, op)
  {
    match op
    case OpPush => t.(levels := t.levels + [map[]])
    case OpPop => t.(levels := t.levels[..|t.levels| - 1])
    case OpFetch(k, txid) => Fetch(t, k, txid)
    case OpModify(txid) => BeginModify(t, txid)
    case OpNew(txid, coinbase) => BeginNew(t, txid, coinbase)
    case OpWrite(c) => Write(t, c)
    case OpEnd => EndModify(t)
    case OpUncache(k, txid) => Uncached(t, k, txid)
    case OpFlush(k) => Flushed(t, k)
  }

  lemma PushPopKeeps(t: Tower, t': Tower, n: nat)
    requires Valid(t) && t.modifier.None? && t'.modifier.None? && t'.db == t.db
    requires n <= |t.levels| && (t'.levels == t.levels[..n] || (n == |t.levels| && t'.levels == t.levels + [map[]]))
    ensures Valid(t')
    ensures forall k, x :: 0 <= k <= |t'.levels| ==> View(t', k, x) == View(t, if k <= n then k else n, x)
  {
    forall k, x | 0 <= k <= n ensures View(t', k, x) == View(t, k, x) { GetBelow(t, t', k, x); }
    forall k, x | 0 < k <= |t'.levels| && x in t'.levels[k - 1] ensures EntryOk(t', k, x) { assert EntryOk(t, k, x); }
  }

  /** One step of the caches against one step of the plain maps. */
  lemma StepAgrees(t: Tower, op: Op, p: Plain)
    requires Valid(t) && Agree(t, p) && Allowed(p, op)
    ensures Valid(Step(t, op, p)) && Agree(Step(t, op, p), PlainStep(p, op))
    ensures op.OpNew? ==> !NewCoinsThrows(t, op.txid, op.coinbase)
  {
    var n := |t.levels|;
    var t', p' := Step(t, op, p), PlainStep(p, op);
    match op {
      case OpPush => PushPopKeeps(t, t', n);
      case OpPop => PushPopKeeps(t, t', n - 1);
      case OpFetch(k, txid) =>
        FetchValid(t, k, txid);
      case OpModify(txid) => BeginModifyKeeps(t, txid);
      case OpNew(txid, coinbase) =>
        assert View(t, n, txid) == Find(p.maps[n], txid);
        if txid !in t.levels[n - 1] { assert Get(t, n, txid) == Get(t, n - 1, txid); }
        BeginNewKeeps(t, txid, coinbase);
      case OpWrite(c) => WriteKeeps(t, c);
      case OpEnd => EndModifyKeeps(t);
      case OpUncache(k, txid) =>
        assert t.modifier.Some? ==> t.levels[n - 1][t.modifier.value].dirty;
        UncacheKeeps(t, k, txid);
      case OpFlush(k) => FlushKeeps(t, k);
    }
    forall k, x | 0 <= k <= |t'.levels| ensures View(t', k, x) == Find(p'.maps[k], x) {
      assert k <= n ==> View(t, k, x) == Find(p.maps[k], x);
      assert View(t, n, x) == Find(p.maps[n], x);
      if op.OpFlush? { assert View(t, op.k, x) == Find(p.maps[op.k], x); }
    }
  }

  /** A run: caches stacked, used and dropped over a database, next to the plain maps. */
  ghost predicate IsRun(ops: seq<Op>, ts: seq<Tower>, ps: seq<Plain>) {
    && |ts| == |ps| == |ops| + 1
    && ts[0].levels == [] && ts[0].modifier == None && Agree(ts[0], ps[0])
    && (forall i :: 0 <= i < |ops| ==> Allowed(ps[i], ops[i]) && ps[i + 1] == PlainStep(ps[i], ops[i]))
    && (forall i :: 0 <= i < |ops| ==> Valid(ts[i]) && Agree(ts[i], ps[i]) ==> ts[i + 1] == Step(ts[i], ops[i], ps[i]))
  }

  /** Along every run, every level of the stack answers what its plain map answers, FRESH means
      that nothing below is unspent, and a clean entry is the base's. */
  lemma {:induction false} RunAgrees(ops: seq<Op>, ts: seq<Tower>, ps: seq<Plain>, i: nat)
    requires IsRun(ops, ts, ps) && i < |ts|
    ensures Valid(ts[i]) && Agree(ts[i], ps[i])
  {
    if i > 0 {
      RunAgrees(ops, ts, ps, i - 1);
      assert ts[i - 1 + 1] == Step(ts[i - 1], ops[i - 1], ps[i - 1])
          && ps[i - 1 + 1] == PlainStep(ps[i - 1], ops[i - 1]);
      StepAgrees(ts[i - 1], ops[i - 1], ps[i - 1]);
    }
  }

  // ------------------------------------------------------------ the object

  /** The stack as the program keeps it: a database and the `cacheCoins` of each cache, changed in place. */
  class CCoinsViews {
    var db: map<Txid, CoinSet>
    var cacheCoins: seq<Cache>
    var modifier: Option<Txid>

    ghost function Value(): Tower
      reads this
    {
      Tower(db, cacheCoins, modifier)
    }

    constructor (db: map<Txid, CoinSet>)
      ensures Value() == Tower(db, [], None) && Valid(Value())
    {
      this.db, cacheCoins, modifier := db, [], None;
    }

    method GetCoins(k: nat, txid: Txid) returns (coins: Option<CoinSet>)
      requires k <= |cacheCoins|
      modifies this`cacheCoins
      ensures coins == Get(old(Value()), k, txid) && Value() == Fetch(old(Value()), k, txid)
      decreases k
    {
      if k == 0 { return if txid in db then Some(db[txid]) else None; }
      if txid in cacheCoins[k - 1] { return Some(cacheCoins[k - 1][txid].coins); }
      coins := GetCoins(k - 1, txid);
      if coins.None? { return; }
      var entry := Entry(coins.value, false, false);
      if entry.coins.IsPruned() {
        entry := entry.(isFresh := true);
      }
      cacheCoins := cacheCoins[k - 1 := cacheCoins[k - 1][txid := entry]];
    }

    /** An entry counts as there if it has outputs at all, even if all are spent. */
    method HaveCoins(k: nat, txid: Txid) returns (have: bool)
      requires k <= |cacheCoins|
      modifies this`cacheCoins
      ensures have <==> Get(old(Value()), k, txid).Some? && Get(old(Value()), k, txid).value.vout != []
      ensures Value() == Fetch(old(Value()), k, txid)
    {
      var coins := GetCoins(k, txid);
      return coins.Some? && coins.value.vout != [];
    }

    method ModifyCoins(txid: Txid)
      requires |cacheCoins| > 0 && modifier.None?
      modifies this`cacheCoins, this`modifier
      ensures Value() == BeginModify(old(Value()), txid)
    {
      var n := |cacheCoins|;
      var entry := Entry(NO_COINS, false, false);
      if txid in cacheCoins[n - 1] {
        entry := cacheCoins[n - 1][txid];
      } else {
        var found := GetCoins(n - 1, txid);
        if found.None? {
          entry := Entry(NO_COINS, false, true);
        } else {
          entry := entry.(coins := found.value);
          if entry.coins.IsPruned() {
            entry := entry.(isFresh := true);
          }
        }
      }
      entry := entry.(dirty := true);
      cacheCoins := cacheCoins[n - 1 := cacheCoins[n - 1][txid := entry]];
      modifier := Some(txid);
    }

    /** `ok` is false when the code throws. */
    method ModifyNewCoins(txid: Txid, coinbase: bool) returns (ok: bool)
      requires |cacheCoins| > 0 && modifier.None?
      modifies this`cacheCoins, this`modifier
      ensures ok <==> !NewCoinsThrows(old(Value()), txid, coinbase)
      ensures Value() == if ok then BeginNew(old(Value()), txid, coinbase) else old(Value())
    {
      var n := |cacheCoins|;
      var entry := if txid in cacheCoins[n - 1] then cacheCoins[n - 1][txid] else Entry(NO_COINS, false, false);
      if !coinbase {
        if !entry.coins.IsPruned() { return false; }
        if !entry.dirty {
          entry := entry.(isFresh := true);
        }
      }
      entry := entry.(coins := NO_COINS, dirty := true);
      cacheCoins := cacheCoins[n - 1 := cacheCoins[n - 1][txid := entry]];
      modifier := Some(txid);
      return true;
    }

    method Assign(coins: CoinSet)
      requires Valid(Value()) && modifier.Some?
      modifies this`cacheCoins
      ensures Value() == Write(old(Value()), coins)
    {
      var n, txid := |cacheCoins|, modifier.value;
      cacheCoins := cacheCoins[n - 1 := cacheCoins[n - 1][txid := cacheCoins[n - 1][txid].(coins := coins)]];
    }

    method ReleaseModifier()
      requires Valid(Value()) && modifier.Some?
      modifies this`cacheCoins, this`modifier
      ensures Value() == EndModify(old(Value()))
    {
      var n, txid := |cacheCoins|, modifier.value;
      modifier := None;
      var entry := cacheCoins[n - 1][txid];
      var vout := TrimVector(entry.coins.vout);
      entry := entry.(coins := entry.coins.(vout := vout));
      if entry.isFresh && entry.coins.IsPruned() {
        cacheCoins := cacheCoins[n - 1 := cacheCoins[n - 1] - {txid}];
      } else {
        cacheCoins := cacheCoins[n - 1 := cacheCoins[n - 1][txid := entry]];
      }
    }

    method Uncache(k: nat, txid: Txid)
      requires 0 < k <= |cacheCoins|
      modifies this`cacheCoins
      ensures Value() == Uncached(old(Value()), k, txid)
    {
      if txid in cacheCoins[k - 1] && !cacheCoins[k - 1][txid].dirty && !cacheCoins[k - 1][txid].isFresh {
        cacheCoins := cacheCoins[k - 1 := cacheCoins[k - 1] - {txid}];
      }
    }

    /** Flush of cache `k` into its base; the error BatchWrite guards against is proved not to occur. */
    method Flush(k: nat)
      requires Valid(Value()) && 0 < k <= |cacheCoins|
      modifies this`db, this`cacheCoins
      ensures Value() == Flushed(old(Value()), k)
    {
      var t := cacheCoins[k - 1];
      if k == 1 {
        db := BatchWriteDb(t, db);
      } else {
        forall x | x in t && x in cacheCoins[k - 2] ensures !(t[x].isFresh && !cacheCoins[k - 2][x].coins.IsPruned()) {
          FreshNeverMisapplied(Value(), k, x);
        }
        var us := BatchWrite(t, cacheCoins[k - 2]);
        cacheCoins := cacheCoins[k - 2 := us];
      }
      cacheCoins := cacheCoins[k - 1 := map[]];
    }
  }

  method Spend(c: CoinSet, nPos: nat) returns (ok: bool, c': CoinSet)
    ensures ok <==> Available(c, nPos)
    ensures c' == if ok then Spent(c, nPos) else c
  {
    if nPos >= |c.vout| || c.vout[nPos].IsNull() { return false, c; }
    var vout := TrimVector(c.vout[nPos := NULL_OUT]);
    return true, c.(vout := vout);
  }

  /** What HaveCoins finds is what the view shows, for coins that were cleaned. */
  lemma HaveIffUnspent(o: Option<CoinSet>)
    requires o.Some? ==> Cleanup(o.value) == o.value
    ensures Unspent(o).Some? <==> o.Some? && o.value.vout != []
  {
    if o.Some? { CleanupKeepsPruned(o.value); }
  }

  method TrimVector(vout: seq<TxOut>) returns (r: seq<TxOut>)
    ensures r == Trim(vout)
  {
    r := vout;
    while |r| > 0 && r[|r| - 1].IsNull()
      invariant Trim(r) == Trim(vout)
    {
      r := r[..|r| - 1];
    }
  }

  function SetFind<V>(m: map<Txid, V>, txid: Txid, o: Option<V>): map<Txid, V> {
    if o.Some? then m[txid := o.value] else m - {txid}
  }

  lemma SetFindSame<V>(m: map<Txid, V>, txid: Txid)
    ensures SetFind(m, txid, Find(m, txid)) == m
  {
  }

  lemma MergeNone(us: Cache)
    ensures MergedCache(map[], us) == us
  {
  }

  lemma WriteNone(db: map<Txid, CoinSet>)
    ensures WrittenDb(map[], db) == db
  {
  }

  lemma MergeOne(done: Cache, us: Cache, txid: Txid, e: Entry)
    requires txid !in done
    ensures Find(MergedCache(done, us), txid) == Find(us, txid)
    ensures SetFind(MergedCache(done, us), txid, Merged(e, Find(us, txid))) == MergedCache(done[txid := e], us)
  {
    forall x | x != txid ensures MergedAt(done[txid := e], us, x) == MergedAt(done, us, x) { }
  }

  lemma WriteOne(done: Cache, db: map<Txid, CoinSet>, txid: Txid, e: Entry)
    requires txid !in done
    ensures Find(WrittenDb(done, db), txid) == Find(db, txid)
    ensures SetFind(WrittenDb(done, db), txid, if e.dirty then Unspent(Some(e.coins)) else Find(db, txid)) ==
              WrittenDb(done[txid := e], db)
  {
    forall x | x != txid ensures WrittenAt(done[txid := e], db, x) == WrittenAt(done, db, x) { }
  }

  lemma NonEmpty(s: set<Txid>)
    ensures s != {} ==> exists x :: x in s
  {
    if forall x :: x !in s { assert s == {}; }
  }

  lemma DoneMore(mapCoins: Cache, todo: set<Txid>, txid: Txid)
    requires txid in todo && todo <= mapCoins.Keys
    ensures txid !in mapCoins - todo && mapCoins - (todo - {txid}) == (mapCoins - todo)[txid := mapCoins[txid]]
  {
  }

  /** The body of the loop of CCoinsViewCache::BatchWrite. */
  method MergeEntry(cacheCoins: Cache, txid: Txid, child: Entry) returns (us: Cache)
    requires txid in cacheCoins ==> !(child.isFresh && !cacheCoins[txid].coins.IsPruned())
    ensures us == SetFind(cacheCoins, txid, Merged(child, Find(cacheCoins, txid)))
  {
    us := cacheCoins;
    SetFindSame(us, txid);
    if child.dirty {
      if txid !in us {
        if !(child.isFresh && child.coins.IsPruned()) {
          us := us[txid := Entry(child.coins, true, child.isFresh)];
        }
      } else if us[txid].isFresh && child.coins.IsPruned() {
        us := us - {txid};
      } else {
        us := us[txid := us[txid].(coins := child.coins, dirty := true)];
      }
    }
  }

  /** The loop of CCoinsViewCache::BatchWrite, whatever order the child's entries come in. */
  method BatchWrite(mapCoins: Cache, cacheCoins: Cache) returns (us: Cache)
    requires forall x :: x in mapCoins && x in cacheCoins ==> !(mapCoins[x].isFresh && !cacheCoins[x].coins.IsPruned())
    ensures us == MergedCache(mapCoins, cacheCoins)
  {
    us := cacheCoins;
    var todo := mapCoins.Keys;
    MergeNone(cacheCoins);
    assert mapCoins - todo == map[];
    while todo != {}
      invariant todo <= mapCoins.Keys
      invariant us == MergedCache(mapCoins - todo, cacheCoins)
      decreases todo
    {
      NonEmpty(todo);
      var txid :| txid in todo;
      DoneMore(mapCoins, todo, txid);
      MergeOne(mapCoins - todo, cacheCoins, txid, mapCoins[txid]);
      us := MergeEntry(us, txid, mapCoins[txid]);
      todo := todo - {txid};
    }
    assert mapCoins - todo == mapCoins;
  }

  method WriteEntry(db: map<Txid, CoinSet>, txid: Txid, child: Entry) returns (us: map<Txid, CoinSet>)
    ensures us == SetFind(db, txid, if child.dirty then Unspent(Some(child.coins)) else Find(db, txid))
  {
    us := db;
    SetFindSame(us, txid);
    if child.dirty {
      if child.coins.IsPruned() {
        us := us - {txid};
      } else {
        us := us[txid := child.coins];
      }
    }
  }

  /** The loop of CCoinsViewDB::BatchWrite. */
  method BatchWriteDb(mapCoins: Cache, db: map<Txid, CoinSet>) returns (us: map<Txid, CoinSet>)
    ensures us == WrittenDb(mapCoins, db)
  {
    us := db;
    var todo := mapCoins.Keys;
    WriteNone(db);
    assert mapCoins - todo == map[];
    while todo != {}
      invariant todo <= mapCoins.Keys
      invariant us == WrittenDb(mapCoins - todo, db)
      decreases todo
    {
      NonEmpty(todo);
      var txid :| txid in todo;
      DoneMore(mapCoins, todo, txid);
      WriteOne(mapCoins - todo, db, txid, mapCoins[txid]);
      us := WriteEntry(us, txid, mapCoins[txid]);
      todo := todo - {txid};
    }
    assert mapCoins - todo == mapCoins;
  }
}
