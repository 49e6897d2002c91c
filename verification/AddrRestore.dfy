/** What the address manager writes to its file, and what comes back when that file is loaded. */
module AddrRestore {

  import opened AddrTables
  import opened AddrStore

  // ------------------------------------------------------------ saving

  predicate Known(s: State, ids: seq<int>) {
    forall i :: 0 <= i < |ids| ==> ids[i] in s.info
  }

  /** Whether an entry goes under the new (or the tried) ones. */
  predicate Chosen(i: Info, inTried: bool) { if inTried then i.inTried else i.refCount != 0 }

  /** The ids of the new (or of the tried) entries, in the order of an enumeration. */
  function Selected(s: State, q: seq<int>, inTried: bool): seq<int>
    requires Known(s, q)
  {
    if q == [] then [] else
      var x := q[|q| - 1];
      Selected(s, q[..|q| - 1], inTried) + if Chosen(s.info[x], inTried) then [x] else []
  }

  function Records(s: State, ids: seq<int>): (rs: seq<Record>)
    requires Known(s, ids)
    ensures |rs| == |ids| && forall i :: 0 <= i < |ids| ==> rs[i] == Recorded(s.info[ids[i]])
  {
    if ids == [] then [] else Records(s, ids[..|ids| - 1]) + [Recorded(s.info[ids[|ids| - 1]])]
  }

  /** The place of an id in a list, or -1. */
  function IndexOf(ids: seq<int>, x: int): (i: int)
    ensures -1 <= i < |ids| && (i >= 0 ==> ids[i] == x) && (i < 0 ==> x !in ids)
  {
    if ids == [] then -1 else if ids[|ids| - 1] == x then |ids| - 1 else IndexOf(ids[..|ids| - 1], x)
  }

  /** The indices listed for the first n places of a bucket. */
  function BucketList(s: State, ids: seq<int>, bucket: nat, n: nat): seq<int> {
    if n == 0 then [] else
      BucketList(s, ids, bucket, n - 1)
          + if Slot(bucket, n - 1) in s.newTab then [IndexOf(ids, s.newTab[Slot(bucket, n - 1)])] else []
  }

  function BucketLists(s: State, ids: seq<int>, n: nat): (bs: seq<seq<int>>)
    ensures |bs| == n
  {
    if n == 0 then [] else BucketLists(s, ids, n - 1) + [BucketList(s, ids, n - 1, BUCKET_SIZE)]
  }

  ghost predicate Enumerates(q: seq<int>, keys: set<int>) {
    Distinct(q) && forall x :: x in keys <==> x in q
  }

  /** The file Serialize writes when mapInfo is gone through in this order. */
  function Saved(s: State, q: seq<int>): File
    requires Known(s, q)
  {
    SelectedKnown(s, q, false);
    SelectedKnown(s, q, true);
    var news := Selected(s, q, false);
    File(1, s.key, s.nNew, s.nTried, NEW_BUCKET_COUNT, Records(s, news), Records(s, Selected(s, q, true)),
         BucketLists(s, news, NEW_BUCKET_COUNT))
  }

  lemma {:induction false} SelectedKnown(s: State, q: seq<int>, inTried: bool)
    requires Known(s, q)
    ensures var ids := Selected(s, q, inTried);
            Known(s, ids) && forall i :: 0 <= i < |ids| ==> ids[i] in q && Chosen(s.info[ids[i]], inTried)
  {
    if q != [] { SelectedKnown(s, q[..|q| - 1], inTried); }
  }

  lemma {:induction false} SelectedAll(s: State, q: seq<int>, inTried: bool, k: nat)
    requires Known(s, q) && k < |q| && Chosen(s.info[q[k]], inTried)
    ensures q[k] in Selected(s, q, inTried)
  {
    if k < |q| - 1 { SelectedAll(s, q[..|q| - 1], inTried, k); }
  }

  lemma {:induction false} SelectedDistinct(s: State, q: seq<int>, inTried: bool)
    requires Known(s, q) && Distinct(q)
    ensures Distinct(Selected(s, q, inTried))
  {
    if q != [] {
      var front, x := q[..|q| - 1], q[|q| - 1];
      SelectedDistinct(s, front, inTried);
      SelectedKnown(s, front, inTried);
      assert x !in front;
    }
  }

  // ------------------------------------------------------------ what is loaded from what was saved

  /** The entries a file's records become, before any reference: ids are handed out in order. */
  ghost predicate EntriesFrom(s: State, rs: seq<Record>, newCount: nat) {
    && s.idCount == |rs| == |s.random| && (forall n :: n in s.info <==> 0 <= n < |rs|)
    && (forall n :: 0 <= n < |rs| ==> s.info[n] == Revived(rs[n], n >= newCount, n) && s.random[n] == n)
    && s.newTab == map[]
  }

  lemma {:induction false} LoadNewsForm(env: Env, s: State, rs: seq<Record>, count: nat)
    requires EntriesFrom(s, [], count) && s.triedTab == map[] && |rs| <= count
    ensures var t := LoadNews(env, s, rs, true);
            EntriesFrom(t, rs, count) && t == s.(idCount := t.idCount, info := t.info, ids := t.ids, random := t.random)
  {
    if rs != [] { LoadNewsForm(env, s, rs[..|rs| - 1], count); }
  }

  /** Tried entries that are loaded, each in its own place. */
  ghost predicate TriedFrom(env: Env, s: State, rs: seq<Record>, newCount: nat) {
    && newCount <= |rs|
    && (forall i :: newCount <= i < |rs| ==>
          TriedSlot(env, s.key, rs[i].svc) in s.triedTab && s.triedTab[TriedSlot(env, s.key, rs[i].svc)] == i)
    && forall sl :: sl in s.triedTab ==>
         newCount <= s.triedTab[sl] < |rs| && sl == TriedSlot(env, s.key, rs[s.triedTab[sl]].svc)
  }

  ghost predicate TriedApart(env: Env, key: nat, rs: seq<Record>) {
    forall i, j :: 0 <= i < j < |rs| ==> TriedSlot(env, key, rs[i].svc) != TriedSlot(env, key, rs[j].svc)
  }

  lemma {:induction false} LoadTriedsForm(env: Env, s: State, news: seq<Record>, rs: seq<Record>)
    requires EntriesFrom(s, news, |news|) && s.triedTab == map[] && s.nTried == 0 && TriedApart(env, s.key, rs)
    ensures var t := LoadTrieds(env, s, rs);
            && EntriesFrom(t, news + rs, |news|) && TriedFrom(env, t, news + rs, |news|) && t.nTried == |rs|
            && t.key == s.key && t.nNew == s.nNew && t.lastGood == s.lastGood
  {
    hide TriedSlot;
    if rs == [] {
      assert news + rs == news;
    } else {
      var front, r := rs[..|rs| - 1], rs[|rs| - 1];
      LoadTriedsForm(env, s, news, front);
      TriedNext(env, LoadTrieds(env, s, front), news, front, r, rs);
    }
  }

  lemma TriedNext(env: Env, u: State, news: seq<Record>, front: seq<Record>, r: Record, rs: seq<Record>)
    requires EntriesFrom(u, news + front, |news|) && TriedFrom(env, u, news + front, |news|) && rs == front + [r]
             && TriedApart(env, u.key, rs)
    ensures var t := LoadTried(env, u, r);
            && EntriesFrom(t, news + rs, |news|) && TriedFrom(env, t, news + rs, |news|) && t.nTried == u.nTried + 1
            && t.key == u.key && t.nNew == u.nNew && t.lastGood == u.lastGood
  {
    hide TriedSlot;
    var all := news + rs;
    assert all == news + front + [r];
    var slot := TriedSlot(env, u.key, r.svc);
    assert rs[|front|] == r;
    forall sl | sl in u.triedTab
      ensures sl != slot
    {
      var i := u.triedTab[sl] - |news|;
      assert (news + front)[u.triedTab[sl]] == rs[i];
    }
  }

  /** Every entry has its stored part and its table back; `ids` gives the old ids in the order of the new ones. */
  ghost predicate Restored(s: State, ids: seq<int>, t: State) {
    && Known(s, ids) && t.key == s.key && (forall n :: n in t.info <==> 0 <= n < |ids|)
    && forall n :: 0 <= n < |ids| ==>
         Recorded(t.info[n]) == Recorded(s.info[ids[n]]) && t.info[n].inTried == s.info[ids[n]].inTried
  }

  predicate Before(sl: Slot, bucket: nat, pos: nat) { sl.bucket < bucket || (sl.bucket == bucket && sl.pos < pos) }

  /** The slots before (bucket, pos) of the new table are back, with the new ids. */
  ghost predicate NewsPlaced(s: State, news: seq<int>, t: State, bucket: nat, pos: nat) {
    && (forall sl {:trigger sl in t.newTab} {:trigger sl in s.newTab} ::
       sl in t.newTab <==> sl in s.newTab && Before(sl, bucket, pos))
    && forall sl :: sl in t.newTab ==> 0 <= t.newTab[sl] < |news| && news[t.newTab[sl]] == s.newTab[sl]
  }

  /** Every reference of the new table is to one of these ids, and each of them is a new entry. */
  ghost predicate Covers(s: State, news: seq<int>) {
    && Distinct(news) && Known(s, news)
    && forall sl :: sl in s.newTab ==> s.newTab[sl] in news
  }

  /** An entry still to be placed has room for another reference. */
  lemma RoomToPlace(env: Env, s: State, news: seq<int>, t: State, bucket: nat, pos: nat, n: nat, limbo: set<int>)
    requires Hashed(env, s) && Referenced(env, s, {}) && Referenced(env, t, limbo) && Covers(s, news)
             && NewsPlaced(s, news, t, bucket, pos)
    requires Slot(bucket, pos) in s.newTab && n < |news| && s.newTab[Slot(bucket, pos)] == news[n]
    requires n in t.info && !t.info[n].inTried
    ensures t.info[n].refCount < NEW_BUCKETS_PER_ADDRESS && Slot(bucket, pos) !in t.newTab
  {
    var slot, id := Slot(bucket, pos), news[n];
    assert NewHashed(env, s, slot) && IdReferenced(env, s, {}, id) && IdReferenced(env, t, limbo, n);
    var few, many := Holders(t.newTab, n), Holders(s.newTab, id);
    assert slot !in few;
    assert few + {slot} <= many;
    SlotsBelow(few + {slot}, many);
  }

  lemma {:induction false} SlotsBelow(a: set<Slot>, b: set<Slot>)
    requires a <= b
    ensures |a| <= |b|
  {
    if a != {} {
      var x :| x in a;
      SlotsBelow(a - {x}, b - {x});
    }
  }

  /** The reference from an occupied slot comes back. */
  lemma PlaceBack(env: Env, s: State, news: seq<int>, ids: seq<int>, t: State, bucket: nat, pos: nat, limbo: set<int>)
    requires Hashed(env, s) && Referenced(env, s, {}) && Referenced(env, t, limbo) && Covers(s, news)
             && NewsPlaced(s, news, t, bucket, pos)
    requires Restored(s, ids, t) && news <= ids && Slot(bucket, pos) in s.newTab
    ensures var n := IndexOf(news, s.newTab[Slot(bucket, pos)]);
            && 0 <= n < |news| && n in t.info
            && NewsPlaced(s, news, PlacedIn(env, t, n, bucket), bucket, pos + 1)
            && Restored(s, ids, PlacedIn(env, t, n, bucket))
  {
    hide Hashed, Referenced, Covers, NewsPlaced, Restored, NewSlotIn, PlacedIn;
    var slot := Slot(bucket, pos);
    IndexBack(env, s, news, ids, t, slot);
    var n := IndexOf(news, s.newTab[slot]);
    RoomToPlace(env, s, news, t, bucket, pos, n, limbo);
    PlacedInFrame(env, t, n, bucket);
    PlacedInSlot(env, t, n, slot);
    var t' := PlacedIn(env, t, n, bucket);
    OneMore(s, news, t, t', slot, n);
    RestoredStill(s, ids, t, t');
  }

  lemma PlacedInSlot(env: Env, t: State, n: int, slot: Slot)
    requires n in t.info && slot !in t.newTab && t.info[n].refCount < NEW_BUCKETS_PER_ADDRESS
    requires NewSlotIn(env, t.key, t.info[n].svc, slot.bucket) == slot
    ensures PlacedIn(env, t, n, slot.bucket).newTab == t.newTab[slot := n]
  {
  }

  lemma IndexBack(env: Env, s: State, news: seq<int>, ids: seq<int>, t: State, slot: Slot)
    requires Hashed(env, s) && Covers(s, news) && Restored(s, ids, t) && news <= ids && slot in s.newTab
    ensures var n := IndexOf(news, s.newTab[slot]);
            && 0 <= n < |news| && n in t.info && !t.info[n].inTried && news[n] == s.newTab[slot]
            && NewSlotIn(env, t.key, t.info[n].svc, slot.bucket) == slot
  {
    hide NewSlotIn;
    var n := IndexOf(news, s.newTab[slot]);
    assert n >= 0;
    HashedBack(env, s, slot);
    assert ids[n] == news[n];
    assert Recorded(t.info[n]) == Recorded(s.info[ids[n]]);
  }

  lemma OneMore(s: State, news: seq<int>, t: State, t': State, slot: Slot, n: int)
    requires NewsPlaced(s, news, t, slot.bucket, slot.pos) && slot in s.newTab
    requires 0 <= n < |news| && news[n] == s.newTab[slot] && t'.newTab == t.newTab[slot := n]
    ensures NewsPlaced(s, news, t', slot.bucket, slot.pos + 1)
  {
    forall sl
      ensures Before(sl, slot.bucket, slot.pos + 1) <==> Before(sl, slot.bucket, slot.pos) || sl == slot
    {
    }
  }

  lemma RestoredStill(s: State, ids: seq<int>, t: State, t': State)
    requires Restored(s, ids, t) && t'.key == t.key && t'.info.Keys == t.info.Keys
    requires forall x :: x in t.info ==> t'.info[x] == t.info[x].(refCount := t'.info[x].refCount)
    ensures Restored(s, ids, t')
  {
    forall n ensures n in t'.info <==> 0 <= n < |ids| { assert n in t'.info <==> n in t.info; }
  }

  lemma HashedBack(env: Env, s: State, slot: Slot)
    requires Hashed(env, s) && slot in s.newTab
    ensures NewHashed(env, s, slot)
  {
  }

  /** One bucket's list, as it was written, brings back that bucket. */
  lemma {:induction false} BucketBack(env: Env, s: State, news: seq<int>, ids: seq<int>, t: State, bucket: nat,
                                      pos: nat)
    requires Consistent(env, s) && Covers(s, news) && Restored(s, ids, t) && news <= ids
    requires Loading(env, t, 0, 0) && NewsFirst(t, |news|) && NewsPlaced(s, news, t, bucket, 0)
             && bucket < NEW_BUCKET_COUNT
    ensures var t' := LoadBucket(env, t, bucket, BucketList(s, news, bucket, pos), |news|);
            NewsPlaced(s, news, t', bucket, pos) && Restored(s, ids, t')
  {
    hide Covers, Restored, NewsFirst, PlacedIn, NewsPlaced, Hashed, Referenced;
    if pos > 0 {
      var xs := BucketList(s, news, bucket, pos - 1);
      BucketBack(env, s, news, ids, t, bucket, pos - 1);
      LoadBucketLoading(env, t, bucket, xs, |news|, 0, 0);
      var u := LoadBucket(env, t, bucket, xs, |news|);
      if Slot(bucket, pos - 1) in s.newTab {
        PlaceBack(env, s, news, ids, u, bucket, pos - 1, Unreferenced(u));
        var n := IndexOf(news, s.newTab[Slot(bucket, pos - 1)]);
        assert BucketList(s, news, bucket, pos) == xs + [n];
        assert (xs + [n])[..|xs|] == xs;
      } else {
        assert BucketList(s, news, bucket, pos) == xs + [] == xs;
        NothingThere(s, news, u, bucket, pos - 1);
      }
    }
  }

  lemma NothingThere(s: State, news: seq<int>, t: State, bucket: nat, pos: nat)
    requires NewsPlaced(s, news, t, bucket, pos) && Slot(bucket, pos) !in s.newTab
    ensures NewsPlaced(s, news, t, bucket, pos + 1)
  {
    forall sl | sl in s.newTab && Before(sl, bucket, pos + 1) ensures Before(sl, bucket, pos) {
      assert sl != Slot(bucket, pos);
    }
  }

  lemma NextBucket(env: Env, s: State, news: seq<int>, t: State, bucket: nat)
    requires Hashed(env, s) && NewsPlaced(s, news, t, bucket, BUCKET_SIZE)
    ensures NewsPlaced(s, news, t, bucket + 1, 0)
  {
    forall sl | sl in s.newTab ensures sl.pos < BUCKET_SIZE { assert NewHashed(env, s, sl); }
  }

  lemma {:induction false} BucketsBack(env: Env, s: State, news: seq<int>, ids: seq<int>, t: State, n: nat)
    requires Consistent(env, s) && Covers(s, news) && Restored(s, ids, t) && news <= ids
    requires Loading(env, t, 0, 0) && NewsFirst(t, |news|) && t.newTab == map[] && n <= NEW_BUCKET_COUNT
    ensures var t' := LoadBuckets(env, t, BucketLists(s, news, n), |news|);
            NewsPlaced(s, news, t', n, 0) && Restored(s, ids, t')
  {
    hide Covers, Restored, NewsFirst, Loading, BucketList, LoadBucket;
    if n > 0 {
      var bs := BucketLists(s, news, n - 1);
      BucketsBack(env, s, news, ids, t, n - 1);
      LoadBucketsLoading(env, t, bs, |news|, 0, 0);
      var u := LoadBuckets(env, t, bs, |news|);
      BucketBack(env, s, news, ids, u, n - 1, BUCKET_SIZE);
      var last := BucketList(s, news, n - 1, BUCKET_SIZE);
      assert (bs + [last])[..|bs|] == bs;
      NextBucket(env, s, news, LoadBucket(env, u, n - 1, last, |news|), n - 1);
    }
  }

  // ------------------------------------------------------------ the round trip

  /** The old ids in the order of the new ones. */
  function Order(s: State, q: seq<int>): seq<int>
    requires Known(s, q)
  {
    Selected(s, q, false) + Selected(s, q, true)
  }

  lemma EnumerationKnown(s: State, q: seq<int>)
    requires Enumerates(q, s.info.Keys)
    ensures Known(s, q)
  {
    forall i | 0 <= i < |q| ensures q[i] in s.info { assert q[i] in q; }
  }

  /** In a consistent state an entry is written under exactly one of the two tables. */
  lemma OneTable(env: Env, s: State, x: int)
    requires Consistent(env, s) && x in s.info
    ensures Chosen(s.info[x], true) == s.info[x].inTried && Chosen(s.info[x], false) == !s.info[x].inTried
  {
    assert IdReferenced(env, s, {}, x);
  }

  lemma SelectedIff(env: Env, s: State, q: seq<int>, inTried: bool, x: int)
    requires Consistent(env, s) && Enumerates(q, s.info.Keys) && Known(s, q)
    ensures x in Selected(s, q, inTried) <==> x in s.info && s.info[x].inTried == inTried
  {
    hide Consistent;
    var ids := Selected(s, q, inTried);
    SelectedKnown(s, q, inTried);
    if x in ids {
      var i :| 0 <= i < |ids| && ids[i] == x;
      OneTable(env, s, x);
    }
    if x in s.info && s.info[x].inTried == inTried {
      assert x in q;
      var k :| 0 <= k < |q| && q[k] == x;
      OneTable(env, s, x);
      SelectedAll(s, q, inTried, k);
    }
  }

  /** Every entry is written once. */
  lemma OrderComplete(env: Env, s: State, q: seq<int>)
    requires Consistent(env, s) && Enumerates(q, s.info.Keys) && Known(s, q)
    ensures Enumerates(Order(s, q), s.info.Keys) && Known(s, Order(s, q))
  {
    hide Consistent, Selected;
    var news, trieds, all := Selected(s, q, false), Selected(s, q, true), Order(s, q);
    SelectedDistinct(s, q, false);
    SelectedDistinct(s, q, true);
    forall x
      ensures x in news <==> x in s.info && !s.info[x].inTried
      ensures x in trieds <==> x in s.info && s.info[x].inTried
    {
      SelectedIff(env, s, q, false, x);
      SelectedIff(env, s, q, true, x);
    }
    forall i, j | 0 <= i < j < |all| ensures all[i] != all[j] {
      if i < |news| <= j {
        assert all[i] in news && all[j] in trieds;
      }
    }
    EnumerationKnown(s, all);
  }

  lemma NewsCover(env: Env, s: State, q: seq<int>)
    requires Consistent(env, s) && Enumerates(q, s.info.Keys) && Known(s, q)
    ensures Covers(s, Selected(s, q, false))
  {
    hide Selected, Referenced, Counted, Indexed;
    SelectedDistinct(s, q, false);
    SelectedKnown(s, q, false);
    forall sl | sl in s.newTab ensures s.newTab[sl] in Selected(s, q, false) {
      assert NewHashed(env, s, sl);
      SelectedIff(env, s, q, false, s.newTab[sl]);
    }
  }

  /** As many records are written as the counters say. */
  lemma CountsWritten(env: Env, s: State, q: seq<int>)
    requires Consistent(env, s) && Enumerates(q, s.info.Keys) && Known(s, q)
    ensures |Selected(s, q, false)| == s.nNew && |Selected(s, q, true)| == s.nTried
  {
    hide Selected, Referenced, Hashed, Indexed;
    forall x
      ensures x in NewIds(s.info) <==> x in Selected(s, q, false)
      ensures x in TriedIds(s.info) <==> x in Selected(s, q, true)
    {
      SelectedIff(env, s, q, false, x);
      SelectedIff(env, s, q, true, x);
    }
    SelectedDistinct(s, q, false);
    SelectedDistinct(s, q, true);
    DistinctSize(Selected(s, q, false), NewIds(s.info));
    DistinctSize(Selected(s, q, true), TriedIds(s.info));
    assert NewIds(s.info) - {} == NewIds(s.info);
  }

  /** A set of slots of a table with that many buckets of that size. */
  lemma {:induction false} SlotCount(slots: set<Slot>, buckets: nat)
    requires forall sl :: sl in slots ==> sl.bucket < buckets && sl.pos < BUCKET_SIZE
    ensures |slots| <= buckets * BUCKET_SIZE
  {
    if buckets == 0 {
      assert slots == {};
    } else {
      var last := set sl | sl in slots && sl.bucket == buckets - 1;
      RowCount(last, buckets - 1, BUCKET_SIZE);
      SlotCount(slots - last, buckets - 1);
      assert |slots - last| == |slots| - |last| by { assert last <= slots; }
    }
  }

  lemma {:induction false} RowCount(slots: set<Slot>, bucket: nat, size: nat)
    requires forall sl :: sl in slots ==> sl.bucket == bucket && sl.pos < size
    ensures |slots| <= size
  {
    if size == 0 {
      assert slots == {};
    } else {
      RowCount(slots - {Slot(bucket, size - 1)}, bucket, size - 1);
    }
  }

  ghost predicate HoldsOne(tab: map<Slot, int>, slots: set<Slot>, id: int) {
    exists sl :: sl in slots && sl in tab && tab[sl] == id
  }

  /** Entries that each hold a slot are no more than the slots. */
  lemma {:induction false} HoldersCount(ids: seq<int>, tab: map<Slot, int>, slots: set<Slot>)
    requires Distinct(ids) && forall i :: 0 <= i < |ids| ==> HoldsOne(tab, slots, ids[i])
    ensures |ids| <= |slots|
  {
    if ids != [] {
      var k := |ids| - 1;
      assert HoldsOne(tab, slots, ids[k]);
      var slot :| slot in slots && slot in tab && tab[slot] == ids[k];
      forall i | 0 <= i < k ensures HoldsOne(tab, slots - {slot}, ids[..k][i]) {
        assert HoldsOne(tab, slots, ids[i]);
        var sl :| sl in slots && sl in tab && tab[sl] == ids[i];
        assert sl in slots - {slot};
      }
      HoldersCount(ids[..k], tab, slots - {slot});
    }
  }

  /** The counters are within the limits that loading checks. */
  lemma CountsBounded(env: Env, s: State, q: seq<int>)
    requires Consistent(env, s) && Enumerates(q, s.info.Keys) && Known(s, q)
    ensures |Selected(s, q, false)| <= NEW_BUCKET_COUNT * BUCKET_SIZE
    ensures |Selected(s, q, true)| <= TRIED_BUCKET_COUNT * BUCKET_SIZE
  {
    hide Selected, Indexed, Counted;
    var news, trieds := Selected(s, q, false), Selected(s, q, true);
    SelectedDistinct(s, q, false);
    SelectedDistinct(s, q, true);
    forall i | 0 <= i < |news| ensures HoldsOne(s.newTab, s.newTab.Keys, news[i]) {
      SelectedIff(env, s, q, false, news[i]);
      assert IdReferenced(env, s, {}, news[i]);
      assert Holders(s.newTab, news[i]) != {};
      var sl :| sl in Holders(s.newTab, news[i]);
    }
    forall i | 0 <= i < |trieds| ensures HoldsOne(s.triedTab, s.triedTab.Keys, trieds[i]) {
      SelectedIff(env, s, q, true, trieds[i]);
      assert IdReferenced(env, s, {}, trieds[i]);
    }
    HoldersCount(news, s.newTab, s.newTab.Keys);
    HoldersCount(trieds, s.triedTab, s.triedTab.Keys);
    TablesFit(env, s);
  }

  lemma TablesFit(env: Env, s: State)
    requires Hashed(env, s)
    ensures |s.newTab.Keys| <= NEW_BUCKET_COUNT * BUCKET_SIZE && |s.triedTab.Keys| <= TRIED_BUCKET_COUNT * BUCKET_SIZE
  {
    forall sl | sl in s.newTab.Keys ensures sl.bucket < NEW_BUCKET_COUNT && sl.pos < BUCKET_SIZE {
      assert NewHashed(env, s, sl);
    }
    forall sl | sl in s.triedTab.Keys ensures sl.bucket < TRIED_BUCKET_COUNT && sl.pos < BUCKET_SIZE {
      assert TriedHashed(env, s, sl);
    }
    SlotCount(s.newTab.Keys, NEW_BUCKET_COUNT);
    SlotCount(s.triedTab.Keys, TRIED_BUCKET_COUNT);
  }

  lemma RecordsOf(s: State, ids: seq<int>, more: seq<int>)
    requires Known(s, ids) && Known(s, more) && Known(s, ids + more)
    ensures Records(s, ids) + Records(s, more) == Records(s, ids + more)
  {
    var all := ids + more;
    forall i | 0 <= i < |all| ensures (Records(s, ids) + Records(s, more))[i] == Records(s, all)[i] {
      assert i < |ids| ==> all[i] == ids[i];
      assert i >= |ids| ==> all[i] == more[i - |ids|];
    }
  }

  lemma RecordsApart(s: State, ids: seq<int>)
    requires Indexed(s) && Known(s, ids) && Distinct(ids)
    ensures NoRepeats(Records(s, ids))
  {
    forall i, j | 0 <= i < j < |ids| ensures s.info[ids[i]].svc.ip != s.info[ids[j]].svc.ip {
      assert IdIndexed(s, ids[i]) && IdIndexed(s, ids[j]);
    }
  }

  /** What a consistent manager writes is a file that loading accepts. */
  lemma SavedSane(env: Env, s: State, q: seq<int>)
    requires Consistent(env, s) && Enumerates(q, s.info.Keys) && Known(s, q)
    ensures Sane(Saved(s, q))
    ensures s.nNew >= 0 && s.nTried >= 0
  {
    hide Selected, Records, BucketLists, NoRepeats, Hashed, Referenced, Counted, Indexed, Enumerates;
    SelectedKnown(s, q, false);
    SelectedKnown(s, q, true);
    CountsBounded(env, s, q);
    CountsWritten(env, s, q);
    OrderComplete(env, s, q);
    RecordsOf(s, Selected(s, q, false), Selected(s, q, true));
    OrderDistinct(s, q);
    RecordsApart(s, Order(s, q));
  }

  lemma OrderDistinct(s: State, q: seq<int>)
    requires Known(s, q) && Enumerates(Order(s, q), s.info.Keys)
    ensures Distinct(Order(s, q))
  {
  }

  lemma TriedSlotsApart(env: Env, s: State, ids: seq<int>)
    requires Referenced(env, s, {}) && Known(s, ids) && Distinct(ids)
             && forall i :: 0 <= i < |ids| ==> s.info[ids[i]].inTried
    ensures TriedApart(env, s.key, Records(s, ids))
  {
    hide TriedSlot;
    forall i, j | 0 <= i < j < |ids|
      ensures TriedSlot(env, s.key, s.info[ids[i]].svc) != TriedSlot(env, s.key, s.info[ids[j]].svc)
    {
      assert IdReferenced(env, s, {}, ids[i]) && IdReferenced(env, s, {}, ids[j]);
    }
  }

  /** All entries come back, the tried ones in their slots. */
  lemma EntriesBack(env: Env, s: State, q: seq<int>)
    requires Consistent(env, s) && Enumerates(q, s.info.Keys) && Known(s, q)
    ensures Known(s, Order(s, q))
    ensures var t := Entries(env, Saved(s, q)); var all := Order(s, q); var k := |Selected(s, q, false)|;
            && EntriesFrom(t, Records(s, all), k) && TriedFrom(env, t, Records(s, all), k) && t.newTab == map[]
            && t.nNew == s.nNew && t.nTried == s.nTried && t.key == s.key
  {
    hide Selected, Records, BucketLists, EntriesFrom, TriedFrom, Enumerates, Hashed, Counted, Indexed, LoadNews,
        LoadTrieds, TriedApart, Referenced;
    var news, trieds := Selected(s, q, false), Selected(s, q, true);
    SelectedKnown(s, q, false);
    SelectedKnown(s, q, true);
    CountsWritten(env, s, q);
    OrderComplete(env, s, q);
    RecordsOf(s, news, trieds);
    EnumerationDistinct(q, s.info.Keys);
    SelectedDistinct(s, q, true);
    TriedSlotsApart(env, s, trieds);
    var start := Start(Saved(s, q));
    EntriesFromNothing(start, |news|);
    LoadNewsForm(env, start, Records(s, news), |news|);
    RecordsSize(s, news);
    RecordsSize(s, trieds);
    var u := LoadNews(env, start, Records(s, news), true);
    LoadTriedsForm(env, u, Records(s, news), Records(s, trieds));
    EntriesNoSlots(LoadTrieds(env, u, Records(s, trieds)), Records(s, Order(s, q)), |news|);
  }

  lemma EnumerationDistinct(q: seq<int>, keys: set<int>)
    requires Enumerates(q, keys)
    ensures Distinct(q)
  {
  }

  lemma RecordsSize(s: State, ids: seq<int>)
    requires Known(s, ids)
    ensures |Records(s, ids)| == |ids|
  {
  }

  lemma EntriesFromNothing(s: State, count: nat)
    requires s.idCount == 0 && s.info == map[] && s.random == [] && s.newTab == map[]
    ensures EntriesFrom(s, [], count)
  {
  }

  lemma EntriesNoSlots(s: State, rs: seq<Record>, count: nat)
    requires EntriesFrom(s, rs, count)
    ensures s.newTab == map[]
  {
  }

  lemma RestoredFrom(env: Env, s: State, q: seq<int>, t: State)
    requires Consistent(env, s) && Enumerates(q, s.info.Keys) && Known(s, q) && Known(s, Order(s, q)) && t.key == s.key
    requires EntriesFrom(t, Records(s, Order(s, q)), |Selected(s, q, false)|)
    ensures Restored(s, Order(s, q), t)
  {
    hide Selected, Consistent, Enumerates;
    TablesOfOrder(env, s, q);
  }

  /** The same addresses in the same slots, up to a renaming of the ids: `f` lists the old ids in the order of the
      new. */
  ghost predicate Isomorphic(s: State, t: State, f: seq<int>) {
    && Enumerates(f, s.info.Keys) && Known(s, f) && (forall n :: n in t.info <==> 0 <= n < |f|)
    && (forall n {:trigger SameEntry(s, t, f, n)} :: 0 <= n < |f| ==> SameEntry(s, t, f, n))
    && SameTable(s.newTab, t.newTab, f) && SameTable(s.triedTab, t.triedTab, f) && SameAddresses(s.ids, t.ids, f)
    && t.nNew == s.nNew && t.nTried == s.nTried && t.key == s.key
  }

  ghost predicate SameEntry(s: State, t: State, f: seq<int>, n: int) {
    && 0 <= n < |f| && n in t.info && f[n] in s.info && Recorded(t.info[n]) == Recorded(s.info[f[n]])
    && t.info[n].refCount == s.info[f[n]].refCount && t.info[n].inTried == s.info[f[n]].inTried
  }

  ghost predicate SameTable(a: map<Slot, int>, b: map<Slot, int>, f: seq<int>) {
    && a.Keys == b.Keys
    && forall sl :: sl in b ==> 0 <= b[sl] < |f| && a[sl] == f[b[sl]]
  }

  ghost predicate SameAddresses(a: map<NetAddr, int>, b: map<NetAddr, int>, f: seq<int>) {
    && a.Keys == b.Keys
    && forall ip :: ip in b ==> 0 <= b[ip] < |f| && a[ip] == f[b[ip]]
  }

  lemma AddressesBack(s: State, t: State, f: seq<int>)
    requires Indexed(s) && Indexed(t) && Restored(s, f, t) && Enumerates(f, s.info.Keys)
    ensures SameAddresses(s.ids, t.ids, f)
  {
    forall ip | ip in t.ids ensures 0 <= t.ids[ip] < |f| && ip in s.ids && s.ids[ip] == f[t.ids[ip]] {
      assert AddrIndexed(t, ip);
      var n := t.ids[ip];
      assert Recorded(t.info[n]) == Recorded(s.info[f[n]]);
      assert IdIndexed(s, f[n]);
    }
    forall ip | ip in s.ids ensures ip in t.ids {
      assert AddrIndexed(s, ip);
      var x := s.ids[ip];
      assert x in f;
      var n :| 0 <= n < |f| && f[n] == x;
      assert Recorded(t.info[n]) == Recorded(s.info[f[n]]);
      assert IdIndexed(t, n);
    }
    assert s.ids.Keys == t.ids.Keys;
  }

  lemma TriedBack(env: Env, s: State, t: State, f: seq<int>, k: nat)
    requires Hashed(env, s) && Referenced(env, s, {}) && Known(s, f) && Enumerates(f, s.info.Keys) && t.key == s.key
    requires TriedFrom(env, t, Records(s, f), k) && forall n :: 0 <= n < |f| ==> (s.info[f[n]].inTried <==> n >= k)
    ensures SameTable(s.triedTab, t.triedTab, f)
  {
    hide TriedSlot;
    var rs := Records(s, f);
    forall sl | sl in t.triedTab
      ensures 0 <= t.triedTab[sl] < |f| && sl in s.triedTab && s.triedTab[sl] == f[t.triedTab[sl]]
    {
      var n := t.triedTab[sl];
      assert rs[n] == Recorded(s.info[f[n]]);
      assert IdReferenced(env, s, {}, f[n]);
    }
    forall sl | sl in s.triedTab ensures sl in t.triedTab {
      assert TriedHashed(env, s, sl);
      var x := s.triedTab[sl];
      assert x in f;
      var n :| 0 <= n < |f| && f[n] == x;
      assert rs[n] == Recorded(s.info[f[n]]);
    }
    assert s.triedTab.Keys == t.triedTab.Keys;
  }

  lemma NewsBack(env: Env, s: State, t: State, news: seq<int>, f: seq<int>)
    requires Hashed(env, s) && NewsPlaced(s, news, t, NEW_BUCKET_COUNT, 0) && news <= f
    ensures SameTable(s.newTab, t.newTab, f)
  {
    forall sl | sl in s.newTab ensures sl in t.newTab { assert NewHashed(env, s, sl); }
    assert s.newTab.Keys == t.newTab.Keys;
  }

  /** Equal tables give equal reference counts. */
  lemma CountsBack(env: Env, s: State, t: State, f: seq<int>, limbo: set<int>, n: nat)
    requires Referenced(env, s, {}) && Referenced(env, t, limbo) && SameTable(s.newTab, t.newTab, f) && Distinct(f)
    requires n < |f| && n in t.info && f[n] in s.info && t.info[n].inTried == s.info[f[n]].inTried
    ensures t.info[n].refCount == s.info[f[n]].refCount
  {
    assert IdReferenced(env, s, {}, f[n]) && IdReferenced(env, t, limbo, n);
    assert Holders(t.newTab, n) == Holders(s.newTab, f[n]);
  }

  /** Before pruning, the slots and the entries are back. */
  lemma PlacedBack(env: Env, s: State, q: seq<int>)
    requires Consistent(env, s) && Enumerates(q, s.info.Keys) && Known(s, q)
    ensures var t := Placed(env, Saved(s, q)); var f := Order(s, q);
            && Loading(env, t, 0, 0) && Restored(s, f, t) && SameTable(s.newTab, t.newTab, f)
               && SameTable(s.triedTab, t.triedTab, f)
            && t.nNew == s.nNew && t.nTried == s.nTried
  {
    hide Selected, Records, BucketLists, LoadBuckets, Entries, EntriesFrom, TriedFrom, Enumerates, Known, Hashed,
        Referenced, Counted, Indexed;
    hide Covers, Restored, NewsFirst, NewsPlaced, SameTable, Loading, NoRepeats;
    var file, f, news := Saved(s, q), Order(s, q), Selected(s, q, false);
    var e, t := Entries(env, file), Placed(env, file);
    SavedSane(env, s, q);
    FileLoads(env, file);
    EntriesBack(env, s, q);
    OrderComplete(env, s, q);
    RestoredFrom(env, s, q, e);
    NewsCover(env, s, q);
    SelectedKnown(s, q, false);
    RecordsSize(s, news);
    BucketsBack(env, s, news, f, e, NEW_BUCKET_COUNT);
    LoadBucketsFrame(env, e, file.buckets, |news|);
    NewsBack(env, s, t, news, f);
    TablesOfOrder(env, s, q);
    TriedFromSame(env, e, t, Records(s, f), |news|);
    TriedBack(env, s, t, f, |news|);
  }

  lemma TablesOfOrder(env: Env, s: State, q: seq<int>)
    requires Consistent(env, s) && Enumerates(q, s.info.Keys) && Known(s, q) && Known(s, Order(s, q))
    ensures forall n :: 0 <= n < |Order(s, q)| ==> (s.info[Order(s, q)[n]].inTried <==> n >= |Selected(s, q, false)|)
  {
    hide Selected, Consistent, Enumerates;
    var all, k := Order(s, q), |Selected(s, q, false)|;
    forall n | 0 <= n < |all| ensures s.info[all[n]].inTried <==> n >= k {
      if n < k {
        assert all[n] in Selected(s, q, false);
      } else {
        assert Selected(s, q, true)[n - k] == all[n];
      }
      SelectedIff(env, s, q, false, all[n]);
      SelectedIff(env, s, q, true, all[n]);
    }
  }

  lemma TriedFromSame(env: Env, s: State, t: State, rs: seq<Record>, count: nat)
    requires TriedFrom(env, s, rs, count) && t.triedTab == s.triedTab && t.key == s.key
    ensures TriedFrom(env, t, rs, count)
  {
  }

  lemma EntryBack(env: Env, s: State, t: State, f: seq<int>, n: int)
    requires Consistent(env, s) && Loading(env, t, 0, 0) && Restored(s, f, t) && Enumerates(f, s.info.Keys)
             && SameTable(s.newTab, t.newTab, f)
    requires 0 <= n < |f|
    ensures SameEntry(s, t, f, n) && n !in Unreferenced(t)
  {
    hide Indexed, Hashed, Counted, SameTable;
    assert f[n] in s.info;
    CountsBack(env, s, t, f, Unreferenced(t), n);
    assert IdReferenced(env, s, {}, f[n]);
  }

  /** Nothing is pruned. */
  lemma NothingPruned(env: Env, s: State, q: seq<int>)
    requires Consistent(env, s) && Enumerates(q, s.info.Keys) && Known(s, q)
    ensures Unreferenced(Placed(env, Saved(s, q))) == {}
  {
    hide Selected, Placed, Saved, Consistent, Loading, Enumerates, SameTable, SameEntry;
    var t, f := Placed(env, Saved(s, q)), Order(s, q);
    PlacedBack(env, s, q);
    OrderComplete(env, s, q);
    forall n | n in t.info ensures n !in Unreferenced(t) { EntryBack(env, s, t, f, n); }
  }

  /** What a consistent manager saves, loaded and pruned, is the same manager up to the ids: the same addresses with
      the same stored data and the same reference counts, in the same slots of both tables. */
  lemma SavedRestored(env: Env, s: State, q: seq<int>, t: State)
    requires Consistent(env, s) && Enumerates(q, s.info.Keys) && Known(s, q)
    requires LoadedAs(env, Saved(s, q), t)
    ensures Consistent(env, t) && Isomorphic(s, t, Order(s, q))
  {
    hide Selected, Placed, Saved, Loading, Enumerates, SameTable, SameEntry, SameAddresses, Hashed, Referenced,
        Counted, Indexed, Order, Restored;
    var u, f := Placed(env, Saved(s, q)), Order(s, q);
    PlacedBack(env, s, q);
    OrderComplete(env, s, q);
    NothingPruned(env, s, q);
    SavedSane(env, s, q);
    LoadedConsistent(env, Saved(s, q), t);
    assert Unreferenced(u) - {} == {};
    assert t.info.Keys == u.info.Keys;
    RestoredThere(s, f, u, t);
    LoadingNow(env, t);
    forall n | 0 <= n < |f| ensures SameEntry(s, t, f, n) { EntryBack(env, s, t, f, n); }
    AddressesBack(s, t, f);
    NewCountBack(env, s, t, u);
    RestoredIds(s, f, t);
  }

  lemma RestoredThere(s: State, f: seq<int>, u: State, t: State)
    requires Restored(s, f, u) && t.key == u.key && t.info.Keys == u.info.Keys
    requires forall x :: x in t.info ==> t.info[x] == u.info[x].(randomPos := t.info[x].randomPos)
    ensures Restored(s, f, t)
  {
    forall n ensures n in t.info <==> 0 <= n < |f| { assert n in t.info <==> n in u.info; }
  }

  lemma RestoredIds(s: State, f: seq<int>, t: State)
    requires Restored(s, f, t)
    ensures Known(s, f) && (forall n :: n in t.info <==> 0 <= n < |f|) && t.key == s.key
  {
  }

  lemma LoadingNow(env: Env, t: State)
    requires Consistent(env, t)
    ensures Loading(env, t, 0, 0)
  {
    forall x | x in t.info ensures x !in Unreferenced(t) { assert IdReferenced(env, t, {}, x); }
    assert Unreferenced(t) == {};
    IndexedPositioned(t);
  }

  /** The counter of new entries is that of the entries that are there. */
  lemma NewCountBack(env: Env, s: State, t: State, u: State)
    requires Consistent(env, t) && Loading(env, u, 0, 0) && Unreferenced(u) == {} && t.info.Keys == u.info.Keys
             && u.nNew == s.nNew
    requires forall x :: x in t.info ==> t.info[x] == u.info[x].(randomPos := t.info[x].randomPos)
    ensures t.nNew == s.nNew
  {
    hide Indexed, Hashed, Referenced;
    forall x ensures x in NewIds(t.info) <==> x in NewIds(u.info) { assert x in t.info.Keys <==> x in u.info.Keys; }
    assert NewIds(t.info) == NewIds(u.info);
  }
}
