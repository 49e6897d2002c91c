/** Saving the address manager to a file and loading it again. A file is a list of records rather
    than bytes. What is kept in memory only (last tries, references, positions, ids) is rebuilt. */
module AddrStore {

  import opened AddrTables

  /** The part of an entry that is stored. */
  datatype Record = Record(svc: Service, services: set<nat>, time: int, source: NetAddr, lastSuccess: int,
      attempts: int)

  /** What the stream holds: the version, the key, three counts, and as many records and buckets as they ask for. */
  datatype File = File(version: nat, key: nat, nNew: int, nTried: int, nUBuckets: int,
      news: seq<Record>, trieds: seq<Record>, buckets: seq<seq<int>>) {
    /** The version and the number of buckets are those of this program, so the buckets can be used. */
    predicate Usable() { version == 1 && nUBuckets == NEW_BUCKET_COUNT }
  }

  /** A loop up to a count that is negative does not run, so nothing is read. */
  ghost predicate Whole(file: File) {
    && |file.news| == Max(0, file.nNew) && |file.trieds| == Max(0, file.nTried)
    && |file.buckets| == Max(0, file.nUBuckets)
  }

  /** The two tests on the counts. */
  predicate Accepted(file: File) {
    file.nNew <= NEW_BUCKET_COUNT * BUCKET_SIZE && file.nTried <= TRIED_BUCKET_COUNT * BUCKET_SIZE
  }

  function Recorded(i: Info): Record { Record(i.svc, i.services, i.time, i.source, i.lastSuccess, i.attempts) }

  function Revived(r: Record, inTried: bool, pos: int): Info {
    Info(r.svc, r.services, r.time, r.source, 0, 0, r.lastSuccess, r.attempts, 0, inTried, pos)
  }

  // ------------------------------------------------------------ loading

  /** A new entry in the maps and in vRandom. */
  function Enlisted(s: State, r: Record, inTried: bool): State {
    s.(idCount := s.idCount + 1, info := s.info[s.idCount := Revived(r, inTried, |s.random|)],
       ids := s.ids[r.svc.ip := s.idCount], random := s.random + [s.idCount])
  }

  /** A reference from a bucket, if the place is free and the entry has not enough already. */
  function PlacedIn(env: Env, s: State, id: int, bucket: nat): State
    requires id in s.info
  {
    var slot := NewSlotIn(env, s.key, s.info[id].svc, bucket);
    if slot in s.newTab || s.info[id].refCount >= NEW_BUCKETS_PER_ADDRESS then s else PlaceNew(s, id, slot)
  }

  /** One record of the new table. If the file's buckets cannot be used it gets its primary place at once. */
  function LoadNew(env: Env, s: State, r: Record, usable: bool): State {
    var s1 := Enlisted(s, r, false);
    if usable then s1 else PlacedIn(env, s1, s.idCount, NewBucket(env, s.key, r.svc, r.source))
  }

  function LoadNews(env: Env, s: State, rs: seq<Record>, usable: bool): State {
    if rs == [] then s else LoadNew(env, LoadNews(env, s, rs[..|rs| - 1], usable), rs[|rs| - 1], usable)
  }

  /** One record of the tried table; it is lost if its place is taken. The id -1 leaves a place empty. */
  function LoadTried(env: Env, s: State, r: Record): State {
    var slot := TriedSlot(env, s.key, r.svc);
    if slot in s.triedTab then s else
      Enlisted(s, r, true).(triedTab := if s.idCount == -1 then s.triedTab else s.triedTab[slot := s.idCount],
                            nTried := s.nTried + 1)
  }

  function LoadTrieds(env: Env, s: State, rs: seq<Record>): State {
    if rs == [] then s else LoadTried(env, LoadTrieds(env, s, rs[..|rs| - 1]), rs[|rs| - 1])
  }

  /** One index listed under a bucket. */
  function LoadIndex(env: Env, s: State, bucket: nat, index: int, count: nat): State {
    if 0 <= index < count && index in s.info then PlacedIn(env, s, index, bucket) else s
  }

  function LoadBucket(env: Env, s: State, bucket: nat, xs: seq<int>, count: nat): State {
    if xs == [] then s
        else LoadIndex(env, LoadBucket(env, s, bucket, xs[..|xs| - 1], count), bucket, xs[|xs| - 1], count)
  }

  function LoadBuckets(env: Env, s: State, bs: seq<seq<int>>, count: nat): State {
    if bs == [] then s else LoadBucket(env, LoadBuckets(env, s, bs[..|bs| - 1], count), |bs| - 1, bs[|bs| - 1], count)
  }

  /** How far a count is below zero. */
  function Lag(n: int): int { if n < 0 then n else 0 }

  /** Ids go on from the count of new entries. The count of tried ones is as read, less those that are lost. */
  function Start(file: File): State {
    Initial(file.key).(nNew := file.nNew, idCount := Lag(file.nNew), nTried := Lag(file.nTried))
  }

  function Entries(env: Env, file: File): State {
    LoadTrieds(env, LoadNews(env, Start(file), file.news, file.Usable()), file.trieds)
  }

  function Placed(env: Env, file: File): State {
    if file.Usable() then LoadBuckets(env, Entries(env, file), file.buckets, |file.news|) else Entries(env, file)
  }

  /** New entries without a reference. */
  function Unreferenced(s: State): set<int> { set id | id in s.info && !s.info[id].inTried && s.info[id].refCount == 0 }

  // ------------------------------------------------------------ all but the addresses

  ghost predicate IdPlaced(s: State, id: int) {
    && id in s.info && 0 <= id < s.idCount
    && 0 <= s.info[id].randomPos < |s.random| && s.random[s.info[id].randomPos] == id
  }

  /** mapInfo and vRandom index each other. */
  ghost predicate Positioned(s: State) {
    && s.idCount >= 0
    && (forall id {:trigger IdPlaced(s, id)} :: id in s.info ==> IdPlaced(s, id))
    && (forall i {:trigger PosIndexed(s, i)} :: 0 <= i < |s.random| ==> PosIndexed(s, i))
  }

  /** The counters, but for a count of tried entries that lags behind. */
  ghost predicate Tallied(s: State, limbo: set<int>, extra: int, lag: int) {
    s.nTried == |TriedIds(s.info)| + lag && limbo <= NewIds(s.info) && s.nNew == |NewIds(s.info) - limbo| + extra
  }

  /** All of the invariant but for mapAddr, which a file with repeated addresses can spoil, and for such a lag. */
  ghost predicate Fitted(env: Env, s: State, limbo: set<int>, extra: int, lag: int) {
    Positioned(s) && Hashed(env, s) && Referenced(env, s, limbo) && Tallied(s, limbo, extra, lag)
  }

  /** mapAddr knows every address, and for each it knows an entry that has it. */
  ghost predicate Addressed(s: State) {
    && (forall id :: id in s.info ==> s.info[id].svc.ip in s.ids)
    && (forall a {:trigger AddrIndexed(s, a)} :: a in s.ids ==> AddrIndexed(s, a))
  }

  lemma IndexedPositioned(s: State)
    requires Indexed(s)
    ensures Positioned(s)
  {
    forall x | x in s.info ensures IdPlaced(s, x) { assert IdIndexed(s, x); }
  }

  lemma EnlistedPositioned(s: State, r: Record, inTried: bool)
    requires Positioned(s)
    ensures var t := Enlisted(s, r, inTried);
            && Positioned(t) && t.info.Keys == s.info.Keys + {s.idCount}
            && s.idCount !in s.info && s.idCount >= 0
  {
    var t := Enlisted(s, r, inTried);
    var n := s.idCount;
    assert n in s.info ==> IdPlaced(s, n);
    assert t.info.Keys == s.info.Keys + {n};
    forall x | x in t.info ensures IdPlaced(t, x) { assert x != n ==> IdPlaced(s, x); }
    forall i | 0 <= i < |t.random| ensures PosIndexed(t, i) { assert i < |s.random| ==> PosIndexed(s, i); }
  }

  /** A change that leaves the ids, vRandom and the positions alone. */
  lemma PositionedSame(s: State, t: State)
    requires Positioned(s) && t.idCount == s.idCount && t.random == s.random && t.info.Keys == s.info.Keys
    requires forall x :: x in s.info ==> t.info[x].randomPos == s.info[x].randomPos
    ensures Positioned(t)
  {
    forall x | x in t.info ensures IdPlaced(t, x) {
      assert IdPlaced(s, x) && t.info[x].randomPos == s.info[x].randomPos;
    }
    forall i | 0 <= i < |t.random| ensures PosIndexed(t, i) {
      assert PosIndexed(s, i);
      var x := s.random[i];
      assert x in s.info && t.info[x].randomPos == s.info[x].randomPos;
    }
  }

  lemma EnlistedTables(env: Env, s: State, t: State, n: int, limbo: set<int>)
    requires Hashed(env, s) && Referenced(env, s, limbo) && n !in s.info && n !in limbo
    requires t.info.Keys == s.info.Keys + {n} && forall x :: x in s.info ==> t.info[x] == s.info[x]
    requires t.newTab == s.newTab && t.triedTab == s.triedTab && t.key == s.key
    requires t.info[n].refCount == 0 && !t.info[n].inTried
    ensures Hashed(env, t) && Referenced(env, t, limbo + {n})
  {
    forall sl | sl in t.newTab ensures NewHashed(env, t, sl) && t.newTab[sl] != n {
      assert NewHashed(env, s, sl);
      var x := s.newTab[sl];
      assert x in s.info && t.info[x] == s.info[x];
    }
    forall sl | sl in t.triedTab ensures TriedHashed(env, t, sl) {
      assert TriedHashed(env, s, sl);
      var x := s.triedTab[sl];
      assert x in s.info && t.info[x] == s.info[x];
    }
    assert Holders(t.newTab, n) == {};
    forall x | x in t.info ensures IdReferenced(env, t, limbo + {n}, x) {
      assert x != n ==> IdReferenced(env, s, limbo, x);
    }
  }

  lemma EnlistedCounted(s: State, t: State, n: int, limbo: set<int>, extra: int, lag: int)
    requires Tallied(s, limbo, extra, lag) && n !in s.info && n in t.info && !t.info[n].inTried && t.nTried == s.nTried
             && t.nNew == s.nNew
    requires t.info.Keys == s.info.Keys + {n} && forall x :: x in s.info ==> t.info[x] == s.info[x]
    ensures Tallied(t, limbo + {n}, extra, lag) && n !in limbo
  {
    IdsWithout(t.info, s.info, n);
    hide NewIds, TriedIds;
    WithBoth(NewIds(t.info), NewIds(s.info), limbo, n);
  }

  lemma WithBoth(more: set<int>, ids: set<int>, limbo: set<int>, n: int)
    requires ids == more - {n} && n in more && limbo <= ids
    ensures more - (limbo + {n}) == ids - limbo && limbo + {n} <= more && n !in limbo
  {
  }

  lemma EnlistedKeeps(env: Env, s: State, r: Record, limbo: set<int>, extra: int, lag: int)
    requires Fitted(env, s, limbo, extra, lag)
    ensures Fitted(env, Enlisted(s, r, false), limbo + {s.idCount}, extra, lag) && s.idCount !in limbo
  {
    hide Positioned, Hashed, Referenced, Tallied;
    var t := Enlisted(s, r, false);
    EnlistedPositioned(s, r, false);
    EnlistedCounted(s, t, s.idCount, limbo, extra, lag);
    EnlistedTables(env, s, t, s.idCount, limbo);
  }

  lemma PlacedInKeeps(env: Env, s: State, id: int, bucket: nat, limbo: set<int>, extra: int, lag: int)
    requires Fitted(env, s, limbo, extra, lag) && id in s.info && !s.info[id].inTried && bucket < NEW_BUCKET_COUNT
    ensures var t := PlacedIn(env, s, id, bucket);
            var limbo' := if t == s then limbo else limbo - {id};
            Fitted(env, t, limbo', if t == s || id !in limbo then extra else extra - 1, lag)
  {
    hide Positioned, Hashed, Referenced, Tallied, NewSlotIn;
    var slot := NewSlotIn(env, s.key, s.info[id].svc, bucket);
    if !(slot in s.newTab || s.info[id].refCount >= NEW_BUCKETS_PER_ADDRESS) {
      var t := PlaceNew(s, id, slot);
      assert slot in t.newTab;
      assert t.info.Keys == s.info.Keys;
      PositionedSame(s, t);
      SlotInBucket(env, s, id, bucket);
      PlaceTables(env, s, id, slot, limbo);
      PlacedCounted(s, t, id, limbo, extra, lag);
    }
  }

  lemma SlotInBucket(env: Env, s: State, id: int, bucket: nat)
    requires id in s.info
    ensures NewSlotIn(env, s.key, s.info[id].svc, bucket).bucket == bucket
  {
  }

  lemma PlacedCounted(s: State, t: State, id: int, limbo: set<int>, extra: int, lag: int)
    requires Tallied(s, limbo, extra, lag) && id in s.info && id in t.info && t.info == s.info[id := t.info[id]]
    requires !s.info[id].inTried && !t.info[id].inTried && t.nNew == s.nNew && t.nTried == s.nTried
    ensures Tallied(t, limbo - {id}, if id in limbo then extra - 1 else extra, lag)
  {
    IdsSame(s.info, t.info, id);
    if id in limbo {
      assert NewIds(s.info) - (limbo - {id}) == (NewIds(s.info) - limbo) + {id};
    } else {
      assert limbo - {id} == limbo;
    }
  }

  lemma TriedEnters(env: Env, s: State, t: State, n: int, slot: Slot, limbo: set<int>)
    requires Hashed(env, s) && Referenced(env, s, limbo) && n !in s.info && n !in limbo && slot !in s.triedTab
    requires t.info.Keys == s.info.Keys + {n} && forall x :: x in s.info ==> t.info[x] == s.info[x]
    requires t.newTab == s.newTab && t.triedTab == s.triedTab[slot := n] && t.key == s.key
    requires t.info[n].refCount == 0 && t.info[n].inTried && slot == TriedSlot(env, s.key, t.info[n].svc)
    ensures Hashed(env, t) && Referenced(env, t, limbo)
  {
    forall sl | sl in t.newTab ensures NewHashed(env, t, sl) && t.newTab[sl] != n {
      assert NewHashed(env, s, sl);
      var x := s.newTab[sl];
      assert x in s.info && t.info[x] == s.info[x];
    }
    forall sl | sl in t.triedTab ensures TriedHashed(env, t, sl) {
      if sl != slot {
        assert TriedHashed(env, s, sl);
        var x := s.triedTab[sl];
        assert x in s.info && t.info[x] == s.info[x];
      }
    }
    forall x | x in t.info ensures IdReferenced(env, t, limbo, x) { assert x != n ==> IdReferenced(env, s, limbo, x); }
  }

  lemma TriedCounted(s: State, t: State, n: int, limbo: set<int>, extra: int, lag: int)
    requires Tallied(s, limbo, extra, lag) && n !in s.info && n in t.info && t.info[n].inTried
             && t.nTried == s.nTried + 1 && t.nNew == s.nNew
    requires t.info.Keys == s.info.Keys + {n} && forall x :: x in s.info ==> t.info[x] == s.info[x]
    ensures Tallied(t, limbo, extra, lag) && n !in limbo
  {
    IdsWithTried(s.info, t.info, n);
    hide TriedIds, NewIds;
    assert |TriedIds(s.info) + {n}| == |TriedIds(s.info)| + 1;
  }

  lemma IdsWithTried(info: map<int, Info>, more: map<int, Info>, n: int)
    requires n !in info && more.Keys == info.Keys + {n} && more[n].inTried
             && forall x :: x in info ==> more[x] == info[x]
    ensures TriedIds(more) == TriedIds(info) + {n} && NewIds(more) == NewIds(info) && n !in TriedIds(info)
            && n !in NewIds(info)
  {
    forall x | x in more
      ensures x != n ==> x in info && more[x] == info[x]
    {
    }
  }

  lemma LoadTriedKeeps(env: Env, s: State, r: Record, limbo: set<int>, extra: int, lag: int)
    requires Fitted(env, s, limbo, extra, lag)
    ensures Fitted(env, LoadTried(env, s, r), limbo, extra, lag)
  {
    hide Positioned, Hashed, Referenced, Tallied;
    var slot := TriedSlot(env, s.key, r.svc);
    if slot !in s.triedTab {
      var t, e := LoadTried(env, s, r), Enlisted(s, r, true);
      EnlistedPositioned(s, r, true);
      PositionedSame(e, t);
      TriedCounted(s, t, s.idCount, limbo, extra, lag);
      TriedEnters(env, s, t, s.idCount, slot, limbo);
    }
  }

  /** Entries in limbo are exactly those without a reference. */
  lemma LimboIs(env: Env, s: State, limbo: set<int>, extra: int, lag: int)
    requires Fitted(env, s, limbo, extra, lag)
    ensures limbo == Unreferenced(s)
  {
    forall id | id in s.info
      ensures id in limbo <==> id in Unreferenced(s)
    {
      assert IdReferenced(env, s, limbo, id);
    }
  }

  /** In loading: all entries without a reference are in limbo, and `pending` more are announced. */
  ghost predicate Loading(env: Env, s: State, pending: int, lag: int) {
    Fitted(env, s, Unreferenced(s), |Unreferenced(s)| + pending, lag)
  }

  lemma LoadNewLoading(env: Env, s: State, r: Record, usable: bool, pending: int, lag: int)
    requires Loading(env, s, pending, lag)
    ensures Loading(env, LoadNew(env, s, r, usable), pending - 1, lag)
  {
    hide Fitted;
    var u, n := Unreferenced(s), s.idCount;
    EnlistedKeeps(env, s, r, u, |u| + pending, lag);
    var s1 := Enlisted(s, r, false);
    LimboIs(env, s1, u + {n}, |u| + pending, lag);
    if !usable { PlacedInLoading(env, s1, n, NewBucket(env, s.key, r.svc, r.source), pending - 1, lag); }
  }

  lemma PlacedInLoading(env: Env, s: State, id: int, bucket: nat, pending: int, lag: int)
    requires Loading(env, s, pending, lag) && id in s.info && !s.info[id].inTried && bucket < NEW_BUCKET_COUNT
    ensures Loading(env, PlacedIn(env, s, id, bucket), pending, lag)
  {
    hide Fitted, PlacedIn;
    var u, t := Unreferenced(s), PlacedIn(env, s, id, bucket);
    PlacedInKeeps(env, s, id, bucket, u, |u| + pending, lag);
    LimboIs(env, t, if t == s then u else u - {id},
            if t == s || id !in u then |u| + pending else |u| + pending - 1, lag);
  }

  lemma LoadTriedLoading(env: Env, s: State, r: Record, pending: int, lag: int)
    requires Loading(env, s, pending, lag)
    ensures Loading(env, LoadTried(env, s, r), pending, lag)
  {
    hide Fitted;
    var u := Unreferenced(s);
    LoadTriedKeeps(env, s, r, u, |u| + pending, lag);
    LimboIs(env, LoadTried(env, s, r), u, |u| + pending, lag);
  }

  /** A reference changes nothing but the new table and one count. */
  lemma PlacedInFrame(env: Env, s: State, id: int, bucket: nat)
    requires id in s.info
    ensures var t := PlacedIn(env, s, id, bucket);
            && t == s.(info := t.info, newTab := t.newTab) && t.info.Keys == s.info.Keys
            && forall x :: x in s.info ==> t.info[x] == s.info[x].(refCount := t.info[x].refCount)
  {
  }

  /** The first `count` ids are new entries. */
  ghost predicate NewsFirst(s: State, count: nat) {
    (count > 0 ==> s.idCount >= count) && forall n :: 0 <= n < count ==> n in s.info && !s.info[n].inTried
  }

  lemma {:induction false} LoadNewsLoading(env: Env, s: State, rs: seq<Record>, usable: bool, pending: int, lag: int)
    requires Loading(env, s, pending, lag) && s.idCount == 0
    ensures var t := LoadNews(env, s, rs, usable);
            Loading(env, t, pending - |rs|, lag) && NewsFirst(t, |rs|) && t.idCount == |rs| && t.key == s.key
  {
    hide Loading, PlacedIn, LoadNew, NewsFirst;
    if rs == [] {
      NothingYet(LoadNews(env, s, rs, usable));
    } else {
      var front, r := rs[..|rs| - 1], rs[|rs| - 1];
      LoadNewsLoading(env, s, front, usable, pending, lag);
      var u, t := LoadNews(env, s, front, usable), LoadNews(env, s, rs, usable);
      LoadNewLoading(env, u, r, usable, pending - |front|, lag);
      LoadNewFrame(env, u, r, usable);
      NewsFirstMore(u, t);
    }
  }

  lemma NothingYet(s: State)
    ensures NewsFirst(s, 0)
  {
  }

  lemma NewsFirstMore(s: State, t: State)
    requires s.idCount >= 0 && NewsFirst(s, s.idCount) && t.idCount == s.idCount + 1
    requires t.info.Keys == s.info.Keys + {s.idCount} && !t.info[s.idCount].inTried
    requires forall x :: x in s.info && x != s.idCount ==> t.info[x].inTried == s.info[x].inTried
    ensures NewsFirst(t, t.idCount)
  {
  }

  lemma LoadNewFrame(env: Env, s: State, r: Record, usable: bool)
    ensures var t := LoadNew(env, s, r, usable);
            && t.idCount == s.idCount + 1 && t.key == s.key && t.ids == s.ids[r.svc.ip := s.idCount]
            && t.info.Keys == s.info.Keys + {s.idCount} && !t.info[s.idCount].inTried && t.info[s.idCount].svc == r.svc
            && forall x :: x in s.info && x != s.idCount ==>
                 t.info[x].inTried == s.info[x].inTried && t.info[x].svc == s.info[x].svc
  {
    var s1 := Enlisted(s, r, false);
    assert s1.info.Keys == s.info.Keys + {s.idCount};
    if !usable { PlacedInFrame(env, s1, s.idCount, NewBucket(env, s.key, r.svc, r.source)); }
  }

  lemma LoadTriedFrame(env: Env, s: State, r: Record, count: nat)
    requires NewsFirst(s, count)
    ensures var t := LoadTried(env, s, r); t.key == s.key && NewsFirst(t, count)
  {
  }

  lemma {:induction false} LoadTriedsLoading(env: Env, s: State, count: nat, rs: seq<Record>, pending: int, lag: int)
    requires Loading(env, s, pending, lag) && NewsFirst(s, count)
    ensures var t := LoadTrieds(env, s, rs); Loading(env, t, pending, lag) && NewsFirst(t, count) && t.key == s.key
  {
    hide Loading, LoadTried, NewsFirst;
    if rs != [] {
      var front, r := rs[..|rs| - 1], rs[|rs| - 1];
      LoadTriedsLoading(env, s, count, front, pending, lag);
      var u := LoadTrieds(env, s, front);
      LoadTriedLoading(env, u, r, pending, lag);
      LoadTriedFrame(env, u, r, count);
    }
  }

  lemma {:induction false} LoadBucketLoading(env: Env, s: State, bucket: nat, xs: seq<int>, count: nat,
                                             pending: int, lag: int)
    requires Loading(env, s, pending, lag) && NewsFirst(s, count) && bucket < NEW_BUCKET_COUNT
    ensures var t := LoadBucket(env, s, bucket, xs, count);
            && Loading(env, t, pending, lag) && NewsFirst(t, count)
            && t.key == s.key
  {
    hide Loading, PlacedIn;
    if xs != [] {
      var front, x := xs[..|xs| - 1], xs[|xs| - 1];
      LoadBucketLoading(env, s, bucket, front, count, pending, lag);
      var u := LoadBucket(env, s, bucket, front, count);
      if 0 <= x < count {
        PlacedInLoading(env, u, x, bucket, pending, lag);
        PlacedInFrame(env, u, x, bucket);
      }
    }
  }

  lemma {:induction false} LoadBucketsLoading(env: Env, s: State, bs: seq<seq<int>>, count: nat, pending: int, lag: int)
    requires Loading(env, s, pending, lag) && NewsFirst(s, count) && |bs| <= NEW_BUCKET_COUNT
    ensures var t := LoadBuckets(env, s, bs, count);
            && Loading(env, t, pending, lag) && NewsFirst(t, count) && t.key == s.key
  {
    hide Loading;
    if bs != [] {
      LoadBucketsLoading(env, s, bs[..|bs| - 1], count, pending, lag);
      LoadBucketLoading(env, LoadBuckets(env, s, bs[..|bs| - 1], count), |bs| - 1, bs[|bs| - 1], count, pending, lag);
    }
  }

  lemma StartLoading(env: Env, file: File)
    requires file.nNew >= 0
    ensures Loading(env, Start(file), file.nNew, Lag(file.nTried))
  {
    var s := Start(file);
    assert Unreferenced(s) == {} && TriedIds(s.info) == {} && NewIds(s.info) == {};
  }

  ghost predicate Readable(file: File) { Whole(file) && Accepted(file) }

  /** Whatever a file holds, once its entries and references are loaded the tables are in order but for the entries
      that got no reference, for a negative count of tried entries, and perhaps for mapAddr. */
  lemma FileLoads(env: Env, file: File)
    requires Whole(file) && file.nNew >= 0
    ensures var lag := Lag(file.nTried);
            && Loading(env, Entries(env, file), 0, lag) && Loading(env, Placed(env, file), 0, lag)
            && NewsFirst(Entries(env, file), |file.news|)
  {
    hide Loading;
    var n, lag, start := |file.news|, Lag(file.nTried), Start(file);
    StartLoading(env, file);
    LoadNewsLoading(env, start, file.news, file.Usable(), n, lag);
    LoadTriedsLoading(env, LoadNews(env, start, file.news, file.Usable()), n, file.trieds, 0, lag);
    if file.Usable() { LoadBucketsLoading(env, Entries(env, file), file.buckets, n, 0, lag); }
  }

  // ------------------------------------------------------------ mapAddr

  lemma NextAddressed(s: State, t: State, n: int, ip: NetAddr)
    requires Addressed(s) && n !in s.info && t.info.Keys == s.info.Keys + {n} && t.ids == s.ids[ip := n]
             && t.info[n].svc.ip == ip
    requires forall x :: x in s.info ==> t.info[x].svc == s.info[x].svc
    ensures Addressed(t)
  {
    forall a | a in t.ids ensures AddrIndexed(t, a) {
      if a != ip {
        assert AddrIndexed(s, a);
        var x := s.ids[a];
        assert x in s.info && t.info[x].svc == s.info[x].svc;
      }
    }
  }

  lemma AddressedSame(s: State, t: State)
    requires Addressed(s) && t.ids == s.ids && t.info.Keys == s.info.Keys
             && forall x :: x in s.info ==> t.info[x].svc == s.info[x].svc
    ensures Addressed(t)
  {
    forall a | a in t.ids ensures AddrIndexed(t, a) {
      assert AddrIndexed(s, a);
      var x := s.ids[a];
      assert x in s.info && t.info[x].svc == s.info[x].svc;
    }
  }

  /** The next id is one that no entry has. */
  ghost predicate Fresh(s: State) { forall x :: x in s.info ==> x < s.idCount }

  lemma {:induction false} NewsAddressed(env: Env, s: State, rs: seq<Record>, usable: bool)
    requires Fresh(s) && Addressed(s)
    ensures var t := LoadNews(env, s, rs, usable); Fresh(t) && Addressed(t)
  {
    hide Fresh, Addressed, LoadNew;
    if rs != [] {
      NewsAddressed(env, s, rs[..|rs| - 1], usable);
      NewAddressed(env, LoadNews(env, s, rs[..|rs| - 1], usable), rs[|rs| - 1], usable);
    }
  }

  lemma NewAddressed(env: Env, s: State, r: Record, usable: bool)
    requires Fresh(s) && Addressed(s)
    ensures var t := LoadNew(env, s, r, usable); Fresh(t) && Addressed(t)
  {
    hide Addressed, LoadNew;
    LoadNewFrame(env, s, r, usable);
    NextAddressed(s, LoadNew(env, s, r, usable), s.idCount, r.svc.ip);
  }

  lemma {:induction false} TriedsAddressed(env: Env, s: State, rs: seq<Record>)
    requires Fresh(s) && Addressed(s)
    ensures var t := LoadTrieds(env, s, rs); Fresh(t) && Addressed(t)
  {
    hide Addressed;
    if rs != [] {
      TriedsAddressed(env, s, rs[..|rs| - 1]);
      var u, r := LoadTrieds(env, s, rs[..|rs| - 1]), rs[|rs| - 1];
      var t := LoadTried(env, u, r);
      if TriedSlot(env, u.key, r.svc) !in u.triedTab {
        assert t.info.Keys == u.info.Keys + {u.idCount};
        NextAddressed(u, t, u.idCount, r.svc.ip);
      }
    }
  }

  lemma {:induction false} LoadBucketFrame(env: Env, s: State, bucket: nat, xs: seq<int>, count: nat)
    ensures var t := LoadBucket(env, s, bucket, xs, count);
            && t == s.(info := t.info, newTab := t.newTab) && t.info.Keys == s.info.Keys
            && forall x :: x in s.info ==> t.info[x] == s.info[x].(refCount := t.info[x].refCount)
  {
    hide PlacedIn;
    if xs != [] {
      var front, x := xs[..|xs| - 1], xs[|xs| - 1];
      LoadBucketFrame(env, s, bucket, front, count);
      var u := LoadBucket(env, s, bucket, front, count);
      if 0 <= x < count && x in u.info { PlacedInFrame(env, u, x, bucket); }
    }
  }

  lemma {:induction false} LoadBucketsFrame(env: Env, s: State, bs: seq<seq<int>>, count: nat)
    ensures var t := LoadBuckets(env, s, bs, count);
            && t == s.(info := t.info, newTab := t.newTab) && t.info.Keys == s.info.Keys
            && forall x :: x in s.info ==> t.info[x] == s.info[x].(refCount := t.info[x].refCount)
  {
    hide LoadBucket;
    if bs != [] {
      LoadBucketsFrame(env, s, bs[..|bs| - 1], count);
      LoadBucketFrame(env, LoadBuckets(env, s, bs[..|bs| - 1], count), |bs| - 1, bs[|bs| - 1], count);
    }
  }

  /** In mapAddr a later record of an address replaces an earlier one. */
  lemma FileAddressed(env: Env, file: File)
    ensures Addressed(Placed(env, file))
  {
    hide LoadNews, LoadTrieds, LoadBuckets, Addressed;
    var start := Start(file);
    StartAddressed(start);
    NewsAddressed(env, start, file.news, file.Usable());
    TriedsAddressed(env, LoadNews(env, start, file.news, file.Usable()), file.trieds);
    if file.Usable() {
      LoadBucketsFrame(env, Entries(env, file), file.buckets, |file.news|);
      AddressedSame(Entries(env, file), Placed(env, file));
    }
  }

  lemma StartAddressed(s: State)
    requires s.info == map[] && s.ids == map[] && s.random == []
    ensures Fresh(s) && Addressed(s) && (s.idCount >= 0 ==> Positioned(s))
  {
  }

  // ------------------------------------------------------------ pruning

  lemma SwapPositioned(s: State, i: nat, j: nat)
    requires Positioned(s) && i < |s.random| && j < |s.random|
    ensures PosIndexed(s, i) && PosIndexed(s, j) && Positioned(SwapRandom(s, i, j)) && Shuffled(s, SwapRandom(s, i, j))
  {
    assert PosIndexed(s, i) && PosIndexed(s, j);
    var t := SwapRandom(s, i, j);
    if i != j {
      assert t.info.Keys == s.info.Keys;
      forall x | x in t.info ensures IdPlaced(t, x) { assert IdPlaced(s, x); }
      forall k | 0 <= k < |t.random| ensures PosIndexed(t, k) { assert PosIndexed(s, k); }
    }
  }

  lemma DeletePositioned(s: State, id: int)
    requires Positioned(s) && id in s.info
    ensures Deletable(s, id) && Positioned(Delete(s, id)) && DeletedOnly(s, Delete(s, id), id)
    ensures Delete(s, id).ids == s.ids - {s.info[id].svc.ip}
  {
    var last, p := |s.random| - 1, s.info[id].randomPos;
    assert IdPlaced(s, id);
    SwapPositioned(s, p, last);
    var s1, t := SwapRandom(s, p, last), Delete(s, id);
    assert IdPlaced(s1, id) && PosIndexed(s1, last);
    forall x | x in t.info ensures IdPlaced(t, x) { assert IdPlaced(s1, x); }
    forall k | 0 <= k < |t.random| ensures PosIndexed(t, k) { assert PosIndexed(s1, k); }
    DeletedOnlyAfter(s, s1, t, id);
  }

  lemma DeleteFitted(env: Env, s: State, id: int, limbo: set<int>, extra: int, lag: int)
    requires Fitted(env, s, limbo, extra, lag) && id in limbo
    ensures id in s.info && Deletable(s, id) && DeletedOnly(s, Delete(s, id), id)
            && Fitted(env, Delete(s, id), limbo - {id}, extra - 1, lag)
    ensures Delete(s, id).ids == s.ids - {s.info[id].svc.ip}
  {
    hide Positioned, Hashed, Referenced;
    assert id in NewIds(s.info);
    DeletePositioned(s, id);
    var t := Delete(s, id);
    DeletedTables(env, s, t, id, limbo);
    IdsWithout(s.info, t.info, id);
    assert NewIds(t.info) - (limbo - {id}) == NewIds(s.info) - limbo;
  }

  lemma DeletedTables(env: Env, s: State, t: State, id: int, limbo: set<int>)
    requires Hashed(env, s) && Referenced(env, s, limbo) && DeletedOnly(s, t, id)
    requires id in s.info && id in limbo && !s.info[id].inTried
    ensures Hashed(env, t) && Referenced(env, t, limbo - {id})
  {
    assert IdReferenced(env, s, limbo, id);
    forall sl | sl in t.newTab ensures NewHashed(env, t, sl) {
      assert NewHashed(env, s, sl);
      assert sl !in Holders(s.newTab, id);
    }
    forall sl | sl in t.triedTab ensures TriedHashed(env, t, sl) {
      assert TriedHashed(env, s, sl);
      var x := s.triedTab[sl];
      assert x in t.info && t.info[x] == s.info[x].(randomPos := t.info[x].randomPos);
    }
    forall x | x in t.info ensures IdReferenced(env, t, limbo - {id}, x) { assert IdReferenced(env, s, limbo, x); }
  }

  /** An address of none of these entries. */
  ghost predicate Spared(u: State, gone: set<int>, ip: NetAddr) {
    forall x :: x in gone && x in u.info ==> u.info[x].svc.ip != ip
  }

  /** Loaded as u, with all entries pruned that got no reference, but for those in `left`. */
  ghost predicate PrunedTo(env: Env, u: State, t: State, left: set<int>, lag: int) {
    && left <= Unreferenced(u) && Fitted(env, t, left, |left|, lag)
    && t == u.(info := t.info, random := t.random, ids := t.ids, nNew := t.nNew)
    && t.info.Keys == u.info.Keys - (Unreferenced(u) - left)
    && (forall x :: x in t.info ==> t.info[x] == u.info[x].(randomPos := t.info[x].randomPos))
    && (forall a {:trigger a in t.ids} :: a in t.ids <==> a in u.ids && Spared(u, Unreferenced(u) - left, a))
    && forall a {:trigger t.ids[a]} :: a in t.ids ==> t.ids[a] == u.ids[a]
  }

  lemma PruneStart(env: Env, u: State, lag: int)
    requires Loading(env, u, 0, lag)
    ensures PrunedTo(env, u, u, Unreferenced(u), lag)
  {
    assert Unreferenced(u) - Unreferenced(u) == {};
  }

  lemma PruneOne(env: Env, u: State, t: State, left: set<int>, id: int, lag: int)
    requires PrunedTo(env, u, t, left, lag) && id in left
    ensures id in t.info && Deletable(t, id) && PrunedTo(env, u, Delete(t, id), left - {id}, lag)
  {
    hide Fitted;
    DeleteFitted(env, t, id, left, |left|, lag);
    var t', gone, gone' := Delete(t, id), Unreferenced(u) - left, Unreferenced(u) - (left - {id});
    assert gone' == gone + {id};
    assert t'.info.Keys == u.info.Keys - gone';
    SparedToo(u, t, gone, id);
  }

  lemma SparedToo(u: State, t: State, gone: set<int>, id: int)
    requires id in t.info && id in u.info && t.info[id].svc == u.info[id].svc
    ensures forall a :: Spared(u, gone + {id}, a) <==> Spared(u, gone, a) && a != t.info[id].svc.ip
  {
  }

  lemma UnreferencedIds(env: Env, u: State, lag: int)
    requires Loading(env, u, 0, lag)
    ensures u.idCount >= 0 && forall x :: x in Unreferenced(u) ==> 0 <= x < u.idCount
  {
    forall x | x in Unreferenced(u) ensures 0 <= x < u.idCount { assert IdPlaced(u, x); }
  }

  // ------------------------------------------------------------ when loading gives a consistent manager

  /** No entry that is kept has the address of another entry that was loaded. */
  ghost predicate NoClash(u: State) {
    forall x, y :: x in u.info && y in u.info && x != y && x !in Unreferenced(u) ==>
      u.info[x].svc.ip != u.info[y].svc.ip
  }

  /** What loading a file ends in: with no new entries there is nothing to prune. */
  ghost predicate LoadedAs(env: Env, file: File, t: State) {
    if file.nNew < 0 then t == Placed(env, file)
    else PrunedTo(env, Placed(env, file), t, {}, Lag(file.nTried))
  }

  /** Neither count is negative, and no entry that is kept has the address of another one that was loaded: of those,
      mapAddr can know only one, and forgets even that if the other is pruned. */
  ghost predicate Sound(env: Env, file: File) {
    file.nNew >= 0 && file.nTried >= 0 && NoClash(Placed(env, file))
  }

  /** Loading any file ends in a consistent state exactly if it is sound. */
  lemma LoadedIff(env: Env, file: File, t: State)
    requires Whole(file) && LoadedAs(env, file, t)
    ensures Consistent(env, t) <==> Sound(env, file)
  {
    hide Hashed, Referenced, TriedIds, NewIds, Placed;
    if file.nNew < 0 {
      EntriesCount(env, file);
    } else if file.nTried >= 0 {
      var u := Placed(env, file);
      FileAddressed(env, file);
      var none: set<int> := {};
      assert |none| == 0 && Unreferenced(u) - none == Unreferenced(u);
      if NoClash(u) { KeptIndexed(u, t); }
      if Indexed(t) { IndexedKept(u, t); }
    }
  }

  /** Loading entries and references leaves the count of new ones as it was read. */
  lemma EntriesCount(env: Env, file: File)
    requires Whole(file) && file.nNew < 0
    ensures Placed(env, file).nNew == file.nNew <= Placed(env, file).idCount
  {
    TriedsCount(env, Start(file), file.trieds);
    if file.Usable() { LoadBucketsFrame(env, Entries(env, file), file.buckets, |file.news|); }
  }

  lemma {:induction false} TriedsCount(env: Env, s: State, rs: seq<Record>)
    ensures LoadTrieds(env, s, rs).nNew == s.nNew && LoadTrieds(env, s, rs).idCount >= s.idCount
  {
    if rs != [] { TriedsCount(env, s, rs[..|rs| - 1]); }
  }

  /** A count of -1 is read without a complaint. The manager is inconsistent, and its next id is the mark of an empty
      slot. */
  lemma NegativeCount(env: Env, key: nat, t: State)
    requires LoadedAs(env, File(1, key, -1, 0, 0, [], [], []), t)
    ensures var file := File(1, key, -1, 0, 0, [], [], []);
            && Readable(file) && t == Initial(key).(nNew := -1, idCount := -1) && !Consistent(env, t)
  {
    var file := File(1, key, -1, 0, 0, [], [], []);
    assert LoadNews(env, Start(file), [], false) == Start(file) && LoadTrieds(env, Start(file), []) == Start(file);
    LoadedIff(env, file, t);
  }

  /** What pruning does to the two maps. */
  ghost predicate Pruned(u: State, t: State) {
    && t.info.Keys == u.info.Keys - Unreferenced(u) && (forall x :: x in t.info ==> t.info[x].svc == u.info[x].svc)
    && (forall a {:trigger a in t.ids} :: a in t.ids <==> a in u.ids && Spared(u, Unreferenced(u), a))
    && forall a {:trigger t.ids[a]} :: a in t.ids ==> t.ids[a] == u.ids[a]
  }

  lemma KeptIndexed(u: State, t: State)
    requires Addressed(u) && Positioned(t) && Pruned(u, t) && NoClash(u)
    ensures Indexed(t)
  {
    forall x | x in t.info ensures IdIndexed(t, x) {
      assert IdPlaced(t, x);
      var a := u.info[x].svc.ip;
      assert a in u.ids && AddrIndexed(u, a);
      assert u.ids[a] == x;
      assert Spared(u, Unreferenced(u), a);
      assert a in t.ids && t.ids[a] == u.ids[a];
    }
    forall a | a in t.ids ensures AddrIndexed(t, a) {
      assert AddrIndexed(u, a) && t.ids[a] == u.ids[a] && Spared(u, Unreferenced(u), a);
    }
  }

  lemma IndexedKept(u: State, t: State)
    requires Pruned(u, t) && Indexed(t)
    ensures NoClash(u)
  {
    forall x, y | x in u.info && y in u.info && x != y && x !in Unreferenced(u)
      ensures u.info[x].svc.ip != u.info[y].svc.ip
    {
      assert IdIndexed(t, x);
      var a := u.info[x].svc.ip;
      assert a in t.ids && Spared(u, Unreferenced(u), a);
      if y in t.info { assert IdIndexed(t, y); }
    }
  }

  // ------------------------------------------------------------ times

  /** Every entry that is kept has a last success that is not negative, and a tried one some success. */
  ghost predicate Successes(u: State) {
    forall x :: x in u.info && x !in Unreferenced(u) ==>
      u.info[x].lastSuccess >= 0 && (u.info[x].inTried ==> u.info[x].lastSuccess != 0)
  }

  /** The time checks hold after loading exactly if they hold of what the file says about the entries that are kept. */
  lemma LoadedTimed(env: Env, file: File, t: State)
    requires Whole(file) && LoadedAs(env, file, t)
    ensures Timed(t) <==> Successes(Placed(env, file))
  {
    hide Placed, Fitted;
    var u := Placed(env, file);
    NeverTried(env, file);
    if file.nNew < 0 {
      NothingNew(env, file);
    } else {
      assert Unreferenced(u) - {} == Unreferenced(u);
    }
    assert t.info.Keys == u.info.Keys - Unreferenced(u);
    forall x | x in t.info ensures t.info[x] == u.info[x].(randomPos := t.info[x].randomPos) {}
    if Timed(t) {
      forall x | x in u.info && x !in Unreferenced(u)
        ensures u.info[x].lastSuccess >= 0 && (u.info[x].inTried ==> u.info[x].lastSuccess != 0)
      {
        assert x in t.info && TimedInfo(t.info[x]);
      }
    }
  }

  ghost predicate Untried(s: State) { forall x :: x in s.info ==> s.info[x].lastTry == 0 }

  lemma NeverTried(env: Env, file: File)
    ensures Untried(Placed(env, file))
  {
    NewsUntried(env, Start(file), file.news, file.Usable());
    TriedsUntried(env, LoadNews(env, Start(file), file.news, file.Usable()), file.trieds);
    if file.Usable() { LoadBucketsFrame(env, Entries(env, file), file.buckets, |file.news|); }
  }

  lemma {:induction false} NewsUntried(env: Env, s: State, rs: seq<Record>, usable: bool)
    requires Untried(s)
    ensures Untried(LoadNews(env, s, rs, usable))
  {
    if rs != [] { NewsUntried(env, s, rs[..|rs| - 1], usable); }
  }

  lemma {:induction false} TriedsUntried(env: Env, s: State, rs: seq<Record>)
    requires Untried(s)
    ensures Untried(LoadTrieds(env, s, rs))
  {
    if rs != [] { TriedsUntried(env, s, rs[..|rs| - 1]); }
  }

  /** Without new records there is nothing to prune. */
  lemma NothingNew(env: Env, file: File)
    requires Whole(file) && file.nNew < 0
    ensures Unreferenced(Placed(env, file)) == {}
  {
    TriedsOnly(env, Start(file), file.trieds);
    if file.Usable() { LoadBucketsFrame(env, Entries(env, file), file.buckets, |file.news|); }
    NothingPending(Placed(env, file));
  }

  lemma NothingPending(u: State)
    requires AllTried(u)
    ensures Unreferenced(u) == {}
  {
    var none: set<int> := {};
    forall id | id in u.info ensures id !in Unreferenced(u) { assert u.info[id].inTried; }
    assert Unreferenced(u) <= none;
  }

  ghost predicate AllTried(s: State) { forall x :: x in s.info ==> s.info[x].inTried }

  lemma {:induction false} TriedsOnly(env: Env, s: State, rs: seq<Record>)
    requires AllTried(s)
    ensures AllTried(LoadTrieds(env, s, rs))
  {
    if rs != [] { TriedsOnly(env, s, rs[..|rs| - 1]); }
  }

  // ------------------------------------------------------------ which records survive

  /** No record before place n asks for the same slot. */
  ghost predicate FirstIn(slots: seq<Slot>, n: int) {
    0 <= n < |slots| && forall m :: 0 <= m < n ==> slots[m] != slots[n]
  }

  lemma FirstInMore(slots: seq<Slot>, sl: Slot, n: int)
    requires 0 <= n < |slots|
    ensures FirstIn(slots + [sl], n) <==> FirstIn(slots, n)
  {
    var more := slots + [sl];
    assert forall m :: 0 <= m <= n ==> more[m] == slots[m];
  }

  /** The primary slots of the records of the new table, and the slots of those of the tried table. */
  function NewSlots(env: Env, key: nat, rs: seq<Record>): (slots: seq<Slot>)
    ensures |slots| == |rs|
  {
    seq(|rs|, i requires 0 <= i < |rs| => NewSlot(env, key, rs[i].svc, rs[i].source))
  }

  function TriedSlots(env: Env, key: nat, rs: seq<Record>): (slots: seq<Slot>)
    ensures |slots| == |rs|
  {
    seq(|rs|, i requires 0 <= i < |rs| => TriedSlot(env, key, rs[i].svc))
  }

  /** Each record read has its entry, and holds its primary slot if it came first. */
  ghost predicate FirstHolds(env: Env, t: State, rs: seq<Record>) {
    var slots := NewSlots(env, t.key, rs);
    && t.idCount == |rs|
    && (forall n :: 0 <= n < |rs| ==>
          n in t.info && Recorded(t.info[n]) == rs[n] && !t.info[n].inTried
          && t.info[n].refCount == if FirstIn(slots, n) then 1 else 0)
    && (forall sl :: sl in t.newTab ==>
          var n := t.newTab[sl]; 0 <= n < |rs| && FirstIn(slots, n) && slots[n] == sl)
    && forall n :: 0 <= n < |rs| ==> slots[n] in t.newTab
  }

  lemma {:induction false} NewsFirstHold(env: Env, s: State, rs: seq<Record>)
    requires s.idCount == 0 && s.newTab == map[]
    ensures var t := LoadNews(env, s, rs, false); t.key == s.key && FirstHolds(env, t, rs)
  {
    hide NewBucket, BucketPosition, FirstHolds;
    if rs == [] {
      NoneHolds(env, LoadNews(env, s, rs, false));
    } else {
      NewsFirstHold(env, s, rs[..|rs| - 1]);
      NextHolds(env, LoadNews(env, s, rs[..|rs| - 1], false), rs[..|rs| - 1], rs[|rs| - 1]);
      assert rs == rs[..|rs| - 1] + [rs[|rs| - 1]];
    }
  }

  lemma NoneHolds(env: Env, t: State)
    requires t.idCount == 0 && t.newTab == map[]
    ensures FirstHolds(env, t, [])
  {
  }

  lemma NextHolds(env: Env, s: State, rs: seq<Record>, r: Record)
    requires FirstHolds(env, s, rs)
    ensures var t := LoadNew(env, s, r, false); t.key == s.key && FirstHolds(env, t, rs + [r])
  {
    hide NewBucket, BucketPosition;
    var t, all, k := LoadNew(env, s, r, false), rs + [r], |rs|;
    var was, now := NewSlots(env, s.key, rs), NewSlots(env, s.key, all);
    assert now == was + [NewSlot(env, s.key, r.svc, r.source)];
    forall n | 0 <= n < k ensures FirstIn(now, n) <==> FirstIn(was, n) { FirstInMore(was, now[k], n); }
    if now[k] in s.newTab {
      var m := s.newTab[now[k]];
      assert FirstIn(was, m) && was[m] == now[k] == now[m];
    } else {
      forall n | 0 <= n < k ensures now[n] != now[k] { assert was[n] in s.newTab && was[n] == now[n]; }
    }
    HoldsMore(env, s, t, rs, r);
  }

  lemma HoldsMore(env: Env, s: State, t: State, rs: seq<Record>, r: Record)
    requires FirstHolds(env, s, rs) && t == LoadNew(env, s, r, false)
    requires var now := NewSlots(env, s.key, rs + [r]); FirstIn(now, |rs|) <==> now[|rs|] !in s.newTab
    requires forall n :: 0 <= n < |rs| ==>
               (FirstIn(NewSlots(env, s.key, rs + [r]), n) <==> FirstIn(NewSlots(env, s.key, rs), n))
    ensures t.key == s.key && FirstHolds(env, t, rs + [r])
  {
    hide NewBucket, BucketPosition, FirstIn;
    var was, now, k := NewSlots(env, s.key, rs), NewSlots(env, s.key, rs + [r]), |rs|;
    assert now == was + [NewSlot(env, s.key, r.svc, r.source)];
    forall sl | sl in t.newTab ensures FirstIn(now, t.newTab[sl]) && 0 <= t.newTab[sl] <= k && now[t.newTab[sl]] == sl {
      if sl in s.newTab {
        var m := s.newTab[sl];
        FirstPlaceIn(was, m);
        assert was[m] == sl && now[m] == was[m];
      }
    }
    forall n | 0 <= n <= k ensures now[n] in t.newTab { assert n < k ==> was[n] in s.newTab && now[n] == was[n]; }
  }

  lemma FirstPlaceIn(slots: seq<Slot>, n: int)
    requires FirstIn(slots, n)
    ensures 0 <= n < |slots|
  {
  }

  /** Where the buckets of a file cannot be used, a new record survives exactly if none before it asks for its primary
      slot, and then it holds that slot. */
  lemma UnusableKeeps(env: Env, file: File, n: nat)
    requires Whole(file) && file.nNew >= 0 && !file.Usable() && n < |file.news|
    ensures var u := Placed(env, file); var slots := NewSlots(env, file.key, file.news);
            && n in u.info && Recorded(u.info[n]) == file.news[n]
            && (n !in Unreferenced(u) <==> FirstIn(slots, n))
            && (FirstIn(slots, n) ==> slots[n] in u.newTab && u.newTab[slots[n]] == n)
  {
    hide NewSlots, FirstIn;
    var s := LoadNews(env, Start(file), file.news, false);
    NewsFirstHold(env, Start(file), file.news);
    TriedsAside(env, s, file.trieds);
    OneFirst(NewSlots(env, file.key, file.news), n);
  }

  lemma OneFirst(slots: seq<Slot>, n: nat)
    requires n < |slots|
    ensures forall m :: 0 <= m < |slots| && FirstIn(slots, n) && FirstIn(slots, m) && slots[m] == slots[n] ==> m == n
  {
  }

  /** Loading tried records leaves the entries that are there, and the new table. */
  lemma {:induction false} TriedsAside(env: Env, s: State, rs: seq<Record>)
    ensures var t := LoadTrieds(env, s, rs);
            && t.newTab == s.newTab && t.key == s.key && t.idCount >= s.idCount
            && forall x :: x in s.info && x < s.idCount ==> x in t.info && t.info[x] == s.info[x]
  {
    if rs != [] { TriedsAside(env, s, rs[..|rs| - 1]); }
  }

  /** Each slot asked for is held by the record that asked first. */
  ghost predicate FirstTried(env: Env, t: State, rs: seq<Record>) {
    var slots := TriedSlots(env, t.key, rs);
    && t.idCount >= 0
    && (forall sl :: sl in slots <==> sl in t.triedTab)
    && (forall sl :: sl in t.triedTab ==> t.triedTab[sl] in t.info && t.triedTab[sl] < t.idCount)
    && forall n :: 0 <= n < |rs| && FirstIn(slots, n) ==> Recorded(t.info[t.triedTab[slots[n]]]) == rs[n]
  }

  /** Of the tried records exactly those survive that ask for their slot first, and they hold it. */
  lemma {:induction false} TriedKeeps(env: Env, s: State, rs: seq<Record>)
    requires s.triedTab == map[] && s.idCount >= 0
    ensures var t := LoadTrieds(env, s, rs); t.key == s.key && FirstTried(env, t, rs)
  {
    hide TriedBucket, BucketPosition, FirstTried;
    if rs == [] {
      NoneTried(env, s);
    } else {
      TriedKeeps(env, s, rs[..|rs| - 1]);
      NextTried(env, LoadTrieds(env, s, rs[..|rs| - 1]), rs[..|rs| - 1], rs[|rs| - 1]);
      assert rs == rs[..|rs| - 1] + [rs[|rs| - 1]];
    }
  }

  lemma NoneTried(env: Env, s: State)
    requires s.triedTab == map[] && s.idCount >= 0
    ensures FirstTried(env, s, [])
  {
  }

  lemma NextTried(env: Env, s: State, rs: seq<Record>, r: Record)
    requires FirstTried(env, s, rs)
    ensures var t := LoadTried(env, s, r); t.key == s.key && FirstTried(env, t, rs + [r])
  {
    hide TriedBucket, BucketPosition;
    var t, all, k := LoadTried(env, s, r), rs + [r], |rs|;
    var was, now := TriedSlots(env, s.key, rs), TriedSlots(env, s.key, all);
    assert now == was + [TriedSlot(env, s.key, r.svc)];
    forall n | 0 <= n < k ensures FirstIn(now, n) <==> FirstIn(was, n) { FirstInMore(was, now[k], n); }
    if now[k] in s.triedTab {
      var m :| 0 <= m < k && was[m] == now[k];
      assert now[m] == now[k] && !FirstIn(now, k);
    }
    forall sl ensures sl in now <==> sl in was || sl == now[k] {}
    forall n | 0 <= n <= k && FirstIn(now, n) ensures Recorded(t.info[t.triedTab[now[n]]]) == all[n] {
      if n < k {
        assert was[n] == now[n] && was[n] in was;
      }
    }
  }

  // ------------------------------------------------------------ repeated addresses

  ghost predicate NoRepeats(rs: seq<Record>) {
    forall i, j :: 0 <= i < j < |rs| ==> rs[i].svc.ip != rs[j].svc.ip
  }

  ghost predicate Sane(file: File) {
    Readable(file) && file.nNew >= 0 && file.nTried >= 0 && NoRepeats(file.news + file.trieds)
  }

  /** The entries have different addresses, all from these records. */
  ghost predicate Apart(s: State, rs: seq<Record>) {
    && (forall x, y :: x in s.info && y in s.info && x != y ==> s.info[x].svc.ip != s.info[y].svc.ip)
    && forall x {:trigger s.info[x]} :: x in s.info ==> exists i :: 0 <= i < |rs| && rs[i].svc.ip == s.info[x].svc.ip
  }

  lemma NextApart(s: State, t: State, rs: seq<Record>, r: Record, n: int)
    requires Apart(s, rs) && NoRepeats(rs + [r]) && n !in s.info && t.info.Keys <= s.info.Keys + {n}
    requires n in t.info ==> t.info[n].svc == r.svc
    requires forall x :: x in s.info && x in t.info ==> t.info[x].svc == s.info[x].svc
    ensures Apart(t, rs + [r])
  {
    var all := rs + [r];
    forall x | x in s.info ensures s.info[x].svc.ip != r.svc.ip {
      var i :| 0 <= i < |rs| && rs[i].svc.ip == s.info[x].svc.ip;
      assert all[i] == rs[i] && all[|rs|] == r;
    }
    forall x | x in t.info ensures exists i :: 0 <= i < |all| && all[i].svc.ip == t.info[x].svc.ip {
      if x == n {
        assert all[|rs|] == r;
      } else {
        var i :| 0 <= i < |rs| && rs[i].svc.ip == s.info[x].svc.ip;
        assert all[i].svc.ip == t.info[x].svc.ip;
      }
    }
  }

  lemma RepeatsPrefix(rs: seq<Record>, k: nat)
    requires NoRepeats(rs) && k <= |rs|
    ensures NoRepeats(rs[..k])
  {
  }

  lemma {:induction false} NewsApart(env: Env, s: State, rs: seq<Record>, usable: bool)
    requires Positioned(s) && s.info == map[] && NoRepeats(rs)
    ensures var t := LoadNews(env, s, rs, usable); Positioned(t) && Apart(t, rs)
  {
    hide Positioned, Apart, NoRepeats, LoadNew;
    if rs == [] {
      NoneApart(s);
    } else {
      var front, r := rs[..|rs| - 1], rs[|rs| - 1];
      assert rs == front + [r];
      RepeatsPrefix(rs, |rs| - 1);
      NewsApart(env, s, front, usable);
      NewApart(env, LoadNews(env, s, front, usable), front, r, usable);
    }
  }

  lemma NoneApart(s: State)
    requires s.info == map[]
    ensures Apart(s, [])
  {
  }

  lemma NewApart(env: Env, s: State, rs: seq<Record>, r: Record, usable: bool)
    requires Positioned(s) && Apart(s, rs) && NoRepeats(rs + [r])
    ensures var t := LoadNew(env, s, r, usable); Positioned(t) && Apart(t, rs + [r])
  {
    hide Positioned, Apart, NoRepeats, PlacedIn, NewBucket;
    var s1, t := Enlisted(s, r, false), LoadNew(env, s, r, usable);
    EnlistedPositioned(s, r, false);
    if !usable {
      PlacedInFrame(env, s1, s.idCount, NewBucket(env, s.key, r.svc, r.source));
      PositionedSame(s1, t);
    }
    NextApart(s, t, rs, r, s.idCount);
  }

  lemma {:induction false} TriedsApart(env: Env, s: State, news: seq<Record>, rs: seq<Record>)
    requires Positioned(s) && Apart(s, news) && NoRepeats(news + rs)
    ensures var t := LoadTrieds(env, s, rs); Positioned(t) && Apart(t, news + rs)
  {
    hide Positioned, Apart, NoRepeats;
    if rs == [] {
      assert news + rs == news;
    } else {
      var front, r := rs[..|rs| - 1], rs[|rs| - 1];
      assert news + rs == news + front + [r];
      assert (news + rs)[..|news| + |front|] == news + front;
      RepeatsPrefix(news + rs, |news| + |front|);
      TriedsApart(env, s, news, front);
      var u := LoadTrieds(env, s, front);
      var t, e := LoadTried(env, u, r), Enlisted(u, r, true);
      EnlistedPositioned(u, r, true);
      if t != u { PositionedSame(e, t); }
      NextApart(u, t, news + front, r, u.idCount);
    }
  }

  /** Without repeated addresses no two entries clash. */
  lemma SaneApart(env: Env, file: File)
    requires Sane(file)
    ensures NoClash(Placed(env, file))
  {
    hide NoRepeats, Positioned, Apart, LoadNews, LoadTrieds, LoadBuckets, NoClash;
    var start, n := Start(file), |file.news|;
    assert (file.news + file.trieds)[..n] == file.news;
    RepeatsPrefix(file.news + file.trieds, n);
    StartAddressed(start);
    NewsApart(env, start, file.news, file.Usable());
    TriedsApart(env, LoadNews(env, start, file.news, file.Usable()), file.news, file.trieds);
    var e, u := Entries(env, file), Placed(env, file);
    if file.Usable() { LoadBucketsFrame(env, e, file.buckets, n); }
    ApartNoClash(e, u, file.news + file.trieds);
  }

  lemma ApartNoClash(s: State, t: State, rs: seq<Record>)
    requires Apart(s, rs) && t.info.Keys == s.info.Keys && forall x :: x in s.info ==> t.info[x].svc == s.info[x].svc
    ensures NoClash(t)
  {
  }

  /** So any file without repeated addresses loads into a consistent manager. */
  lemma LoadedConsistent(env: Env, file: File, t: State)
    requires Sane(file) && LoadedAs(env, file, t)
    ensures Consistent(env, t)
  {
    hide Placed, Consistent, LoadedAs, NoClash;
    SaneApart(env, file);
    LoadedIff(env, file, t);
  }

  /** One address in both tables: the file loads, and the manager is inconsistent. */
  lemma RepeatClashes(env: Env, key: nat, r: Record, t: State)
    requires LoadedAs(env, File(1, key, 1, 1, 0, [r], [r], []), t)
    ensures Readable(File(1, key, 1, 1, 0, [r], [r], [])) && !Consistent(env, t)
  {
    var file := File(1, key, 1, 1, 0, [r], [r], []);
    var start := Start(file);
    var s1 := LoadNew(env, start, r, false);
    assert LoadNews(env, start, [], false) == start && LoadNews(env, start, [r], false) == s1;
    assert LoadTrieds(env, s1, []) == s1 && LoadTrieds(env, s1, [r]) == LoadTried(env, s1, r);
    var u := Placed(env, file);
    assert u == LoadTried(env, s1, r);
    assert s1.info[0].refCount == 1 && s1.triedTab == map[] && s1.idCount == 1;
    assert 0 in u.info && 1 in u.info && u.info[0].svc == u.info[1].svc && 0 !in Unreferenced(u);
    LoadedIff(env, file, t);
  }
}
