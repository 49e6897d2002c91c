/** The address manager itself: the object with its maps, its vector and its two
    bucket arrays, updated in place. Every method is proved to do to the object
    what the functions of AddrTables say, so everything proved there holds of it;
    every assertion the code makes on the way is proved never to fail. */
module AddrMan {
  import Powers
  import opened AddrTables
  import opened AddrStore
  import opened AddrRestore

  class CAddrMan {
    const env: Env
    var nIdCount: int
    var mapInfo: map<int, Info>
    var mapAddr: map<NetAddr, int>
    var vRandom: seq<int>
    var nTried: int
    const vvTried: array2<int>
    var nNew: int
    const vvNew: array2<int>
    var nLastGood: int
    var nKey: nat

    ghost predicate Shaped() {
      && vvTried.Length0 == TRIED_BUCKET_COUNT && vvTried.Length1 == BUCKET_SIZE
      && vvNew.Length0 == NEW_BUCKET_COUNT && vvNew.Length1 == BUCKET_SIZE
      && vvTried != vvNew
    }

    /** The occupied slots of a bucket array. */
    static ghost function Table(a: array2<int>): map<Slot, int>
      reads a
    {
      map b: nat, p: nat | b < a.Length0 && p < a.Length1 && a[b, p] != -1 :: Slot(b, p) := a[b, p]
    }

    /** One store into a bucket array, and what it does to the occupied slots. */
    static method Store(a: array2<int>, b: nat, p: nat, id: int)
      requires b < a.Length0 && p < a.Length1
      modifies a
      ensures a[b, p] == id
      ensures Table(a) == if id == -1 then old(Table(a)) - {Slot(b, p)} else old(Table(a))[Slot(b, p) := id]
    {
      a[b, p] := id;
      assert Table(a) == if id == -1 then old(Table(a)) - {Slot(b, p)} else old(Table(a))[Slot(b, p) := id];
    }

    ghost function Value(): State
      reads this, vvTried, vvNew
    {
      State(nIdCount, mapInfo, mapAddr, vRandom, nTried, Table(vvTried), nNew, Table(vvNew), nLastGood, nKey)
    }

    ghost predicate Valid()
      reads this, vvTried, vvNew
    {
      Shaped() && Consistent(env, Value())
    }

    constructor (env: Env, key: nat)
      ensures Valid() && Value() == Initial(key) && Timed(Value()) && this.env == env
      ensures fresh(vvTried) && fresh(vvNew)
    {
      this.env := env;
      nIdCount, mapInfo, mapAddr, vRandom, nTried, nNew, nLastGood, nKey := 0, map[], map[], [], 0, 0, 1, key;
      vvTried := new int[TRIED_BUCKET_COUNT, BUCKET_SIZE]((b, p) => -1);
      vvNew := new int[NEW_BUCKET_COUNT, BUCKET_SIZE]((b, p) => -1);
      new;
      assert Table(vvTried) == map[] && Table(vvNew) == map[];
      InitialConsistent(env, key);
    }

    method Find(addr: NetAddr) returns (found: Option<int>)
      ensures found == Lookup(Value(), addr)
    {
      if addr !in mapAddr { return None; }
      var nId := mapAddr[addr];
      if nId in mapInfo { return Some(nId); }
      return None;
    }

    method Create(addr: Address, source: NetAddr) returns (nId: int)
      requires Shaped()
      modifies this
      ensures nId == old(nIdCount) && Value() == AddrTables.Create(old(Value()), addr, source)
    {
      nId := nIdCount;
      nIdCount := nIdCount + 1;
      mapInfo := mapInfo[nId := NewInfo(addr, source, -1)];
      mapAddr := mapAddr[addr.svc.ip := nId];
      mapInfo := mapInfo[nId := mapInfo[nId].(randomPos := |vRandom|)];
      assert mapInfo == old(mapInfo)[nId := NewInfo(addr, source, |vRandom|)];
      vRandom := vRandom + [nId];
    }

    method SwapRandom(nRndPos1: nat, nRndPos2: nat)
      requires Shaped() && nRndPos1 < |vRandom| && nRndPos2 < |vRandom|
      requires vRandom[nRndPos1] in mapInfo && vRandom[nRndPos2] in mapInfo
      modifies this`mapInfo, this`vRandom
      ensures Value() == AddrTables.SwapRandom(old(Value()), nRndPos1, nRndPos2)
    {
      if nRndPos1 == nRndPos2 { return; }
      var nId1 := vRandom[nRndPos1];
      var nId2 := vRandom[nRndPos2];
      mapInfo := mapInfo[nId1 := mapInfo[nId1].(randomPos := nRndPos2)];
      mapInfo := mapInfo[nId2 := mapInfo[nId2].(randomPos := nRndPos1)];
      vRandom := vRandom[nRndPos1 := nId2];
      vRandom := vRandom[nRndPos2 := nId1];
    }

    method Delete(nId: int)
      requires Shaped() && Deletable(Value(), nId) && !mapInfo[nId].inTried && mapInfo[nId].refCount == 0
      modifies this`mapInfo, this`mapAddr, this`vRandom, this`nNew
      ensures Value() == AddrTables.Delete(old(Value()), nId)
    {
      var info := mapInfo[nId];
      SwapRandom(info.randomPos, |vRandom| - 1);
      vRandom := vRandom[..|vRandom| - 1];
      mapAddr := mapAddr - {info.svc.ip};
      mapInfo := mapInfo - {nId};
      nNew := nNew - 1;
    }

    /** Empty an occupied new slot and drop its entry's reference. */
    method DropNew(nUBucket: nat, nUBucketPos: nat)
      requires Shaped() && nUBucket < NEW_BUCKET_COUNT && nUBucketPos < BUCKET_SIZE
      requires vvNew[nUBucket, nUBucketPos] != -1 && vvNew[nUBucket, nUBucketPos] in mapInfo
      modifies this`mapInfo, vvNew
      ensures Slot(nUBucket, nUBucketPos) in old(Value()).newTab
      ensures old(Value()).newTab[Slot(nUBucket, nUBucketPos)] == old(vvNew[nUBucket, nUBucketPos])
      ensures Value() == Unplace(old(Value()), Slot(nUBucket, nUBucketPos)) && vvNew[nUBucket, nUBucketPos] == -1
    {
      var nId := vvNew[nUBucket, nUBucketPos];
      mapInfo := mapInfo[nId := mapInfo[nId].(refCount := mapInfo[nId].refCount - 1)];
      Store(vvNew, nUBucket, nUBucketPos, -1);
    }

    method ClearNew(nUBucket: nat, nUBucketPos: nat, ghost limbo: set<int>, ghost extra: int)
      requires Shaped() && Between(env, Value(), limbo, extra)
      requires nUBucket < NEW_BUCKET_COUNT && nUBucketPos < BUCKET_SIZE
      modifies this`mapInfo, this`mapAddr, this`vRandom, this`nNew, vvNew
      ensures Clearable(old(Value()), Slot(nUBucket, nUBucketPos))
      ensures Value() == AddrTables.ClearNew(old(Value()), Slot(nUBucket, nUBucketPos))
      ensures vvNew[nUBucket, nUBucketPos] == -1
    {
      ghost var slot := Slot(nUBucket, nUBucketPos);
      ClearNewKeeps(env, Value(), slot, limbo, extra);
      if vvNew[nUBucket, nUBucketPos] != -1 {
        UnplaceKeeps(env, Value(), slot, limbo, extra);
        var nIdDelete := vvNew[nUBucket, nUBucketPos];
        assert mapInfo[nIdDelete].refCount > 0;
        DropNew(nUBucket, nUBucketPos);
        if mapInfo[nIdDelete].refCount == 0 {
          Delete(nIdDelete);
        }
      }
    }

    /** The loop of MakeTried that takes an entry out of every new bucket. */
    method LeaveNewBuckets(nId: int)
      requires Shaped() && nId in mapInfo && nId != -1
      modifies this`mapInfo, vvNew
      ensures Value() == Withdraw(env, old(Value()), nId, NEW_BUCKET_COUNT)
    {
      ghost var s := Value();
      WithdrawNone(env, s, nId);
      for bucket := 0 to NEW_BUCKET_COUNT
        invariant Value() == Withdraw(env, s, nId, bucket)
      {
        WithdrawOne(env, s, nId, bucket);
        var pos := BucketPosition(env, nKey, mapInfo[nId].svc, true, bucket);
        ghost var w := Value();
        assert Slot(bucket, pos) in w.newTab <==> vvNew[bucket, pos] != -1;
        if vvNew[bucket, pos] == nId {
          DropNew(bucket, pos);
        }
      }
    }

    method DropTried(nKBucket: nat, nKBucketPos: nat) returns (nIdEvict: int)
      requires Shaped() && nKBucket < TRIED_BUCKET_COUNT && nKBucketPos < BUCKET_SIZE
      requires vvTried[nKBucket, nKBucketPos] != -1 && vvTried[nKBucket, nKBucketPos] in mapInfo
      modifies this`mapInfo, this`nTried, vvTried
      ensures nIdEvict == old(vvTried[nKBucket, nKBucketPos]) && Slot(nKBucket, nKBucketPos) in old(Value()).triedTab
      ensures old(Value()).triedTab[Slot(nKBucket, nKBucketPos)] == nIdEvict
      ensures Value() == Untry(old(Value()), Slot(nKBucket, nKBucketPos)) && vvTried[nKBucket, nKBucketPos] == -1
    {
      nIdEvict := vvTried[nKBucket, nKBucketPos];
      mapInfo := mapInfo[nIdEvict := mapInfo[nIdEvict].(inTried := false)];
      Store(vvTried, nKBucket, nKBucketPos, -1);
      nTried := nTried - 1;
    }

    method EnterNew(nIdEvict: int, nUBucket: nat, nUBucketPos: nat)
      requires Shaped() && nUBucket < NEW_BUCKET_COUNT && nUBucketPos < BUCKET_SIZE && nIdEvict in mapInfo
               && nIdEvict != -1
      modifies this`mapInfo, this`nNew, vvNew
      ensures Value() == Enter(old(Value()), nIdEvict, Slot(nUBucket, nUBucketPos))
    {
      mapInfo := mapInfo[nIdEvict := mapInfo[nIdEvict].(refCount := 1)];
      Store(vvNew, nUBucket, nUBucketPos, nIdEvict);
      nNew := nNew + 1;
    }

    method EnterTried(nId: int, nKBucket: nat, nKBucketPos: nat)
      requires Shaped() && nKBucket < TRIED_BUCKET_COUNT && nKBucketPos < BUCKET_SIZE && nId in mapInfo && nId != -1
      modifies this`mapInfo, this`nTried, vvTried
      ensures Value() == SetTried(old(Value()), nId, Slot(nKBucket, nKBucketPos))
    {
      Store(vvTried, nKBucket, nKBucketPos, nId);
      nTried := nTried + 1;
      mapInfo := mapInfo[nId := mapInfo[nId].(inTried := true)];
    }

    /** The eviction step of MakeTried: the tried entry in the way goes back to the new table. */
    method EvictTried(nKBucket: nat, nKBucketPos: nat, ghost id: int)
      requires Shaped() && Between(env, Value(), {id}, 0)
      requires nKBucket < TRIED_BUCKET_COUNT && nKBucketPos < BUCKET_SIZE && vvTried[nKBucket, nKBucketPos] != -1
      modifies this, vvNew, vvTried
      ensures Evictable(env, old(Value()), Slot(nKBucket, nKBucketPos))
      ensures Value() == Evict(env, old(Value()), Slot(nKBucket, nKBucketPos))
      ensures vvTried[nKBucket, nKBucketPos] == -1
    {
      hide Hashed, Referenced, Counted;
      ghost var s := Value();
      ghost var slot := Slot(nKBucket, nKBucketPos);
      assert slot in s.triedTab;
      EvictKeeps(env, s, slot, {id});
      UntryKeeps(env, s, slot, {id}, 0);
      var nIdEvict := DropTried(nKBucket, nKBucketPos);
      ghost var s1 := Value();
      var infoOld := mapInfo[nIdEvict];
      var nUBucket := NewBucket(env, nKey, infoOld.svc, infoOld.source);
      var nUBucketPos := BucketPosition(env, nKey, infoOld.svc, true, nUBucket);
      ClearNewKeeps(env, s1, Slot(nUBucket, nUBucketPos), {id} + {nIdEvict}, 0);
      ClearNew(nUBucket, nUBucketPos, {id} + {nIdEvict}, 0);
      assert IdIndexed(s1, nIdEvict);
      EnterNew(nIdEvict, nUBucket, nUBucketPos);
    }

    method MakeTried(nId: int)
      requires Valid() && nId in mapInfo && !mapInfo[nId].inTried
      modifies this, vvNew, vvTried
      ensures Valid() && Value() == AddrTables.MakeTried(env, old(Value()), nId)
    {
      ghost var s := Value();
      MakeTriedKeeps(env, s, nId);
      WithdrawKeeps(env, s, nId);
      assert IdIndexed(s, nId);
      LeaveNewBuckets(nId);
      nNew := nNew - 1;
      assert mapInfo[nId].refCount == 0;
      ghost var s1 := Value();
      assert s1 == Withdraw(env, s, nId, NEW_BUCKET_COUNT).(nNew := s.nNew - 1);
      var svc := mapInfo[nId].svc;
      var nKBucket := TriedBucket(env, nKey, svc);
      var nKBucketPos := BucketPosition(env, nKey, svc, false, nKBucket);
      ghost var slot := TriedSlot(env, nKey, svc);
      assert slot in Table(vvTried) <==> vvTried[nKBucket, nKBucketPos] != -1;
      if vvTried[nKBucket, nKBucketPos] != -1 {
        EvictTried(nKBucket, nKBucketPos, nId);
        EvictKeeps(env, s1, slot, {nId});
      }
      assert vvTried[nKBucket, nKBucketPos] == -1;
      EnterTried(nId, nKBucket, nKBucketPos);
    }

    /** The search of Good for a bucket the entry is in; it always finds one, the first from where it starts. */
    method FindNewBucket(nId: int, nRnd: nat) returns (nUBucket: int)
      requires Valid() && nId in mapInfo && !mapInfo[nId].inTried
      ensures exists k ::
                0 <= k < NEW_BUCKET_COUNT && FirstSits(nId, k, nRnd) && nUBucket == (k + nRnd) % NEW_BUCKET_COUNT
      ensures 0 <= nUBucket < NEW_BUCKET_COUNT
              && vvNew[nUBucket, BucketPosition(env, nKey, mapInfo[nId].svc, true, nUBucket)] == nId
    {
      nUBucket := -1;
      for n := 0 to NEW_BUCKET_COUNT
        invariant nUBucket == -1
        invariant forall k :: 0 <= k < n ==> !Sits(nId, k, nRnd)
      {
        var nB := (n + nRnd) % NEW_BUCKET_COUNT;
        var nBpos := BucketPosition(env, nKey, mapInfo[nId].svc, true, nB);
        if vvNew[nB, nBpos] == nId {
          nUBucket := nB;
          assert FirstSits(nId, n, nRnd);
          return;
        }
      }
      SitsSomewhere(nId, nRnd);
    }

    method Good(addr: Service, nTime: int, nRnd: nat)
      requires Valid()
      modifies this, vvNew, vvTried
      ensures Valid() && Value() == AddrTables.Good(env, old(Value()), addr, nTime)
    {
      ghost var s := Value();
      GoodKeeps(env, s, addr, nTime);
      nLastGood := nTime;
      var found := Find(addr.ip);
      if found.None? { return; }
      var nId := found.value;
      if mapInfo[nId].svc != addr { return; }
      mapInfo := mapInfo[nId := mapInfo[nId].(lastSuccess := nTime, lastTry := nTime, attempts := 0)];
      assert Value() == Touch(s, nId, nTime);
      ConsistentUpdate(env, s, Value(), nId);
      if mapInfo[nId].inTried { return; }
      var nUBucket := FindNewBucket(nId, nRnd);
      if nUBucket == -1 { return; }
      MakeTried(nId);
    }

    /** The entry sits in the bucket that the search looks at in its round `k`. */
    ghost predicate Sits(nId: int, k: nat, nRnd: nat)
      requires Shaped() && nId in mapInfo
      reads this, vvNew
    {
      var b := (k + nRnd) % NEW_BUCKET_COUNT;
      vvNew[b, BucketPosition(env, nKey, mapInfo[nId].svc, true, b)] == nId
    }

    ghost predicate FirstSits(nId: int, k: nat, nRnd: nat)
      requires Shaped() && nId in mapInfo
      reads this, vvNew
    {
      Sits(nId, k, nRnd) && forall j :: 0 <= j < k ==> !Sits(nId, j, nRnd)
    }

    /** The round of the search that looks at a bucket. */
    static lemma RoundOf(bucket: nat, nRnd: nat) returns (k: nat)
      requires bucket < NEW_BUCKET_COUNT
      ensures k < NEW_BUCKET_COUNT && (k + nRnd) % NEW_BUCKET_COUNT == bucket
    {
      k := (bucket + NEW_BUCKET_COUNT - nRnd % NEW_BUCKET_COUNT) % NEW_BUCKET_COUNT;
    }

    /** An entry of the new table is found by the search of Good, wherever that starts. */
    lemma SitsSomewhere(nId: int, nRnd: nat)
      requires Valid() && nId in mapInfo && !mapInfo[nId].inTried
      ensures exists k :: 0 <= k < NEW_BUCKET_COUNT && Sits(nId, k, nRnd)
    {
      var s := Value();
      assert IdReferenced(env, s, {}, nId);
      var sl :| sl in Holders(s.newTab, nId);
      assert NewHashed(env, s, sl);
      var k := RoundOf(sl.bucket, nRnd);
      assert Sits(nId, k, nRnd);
    }

    /** The end of Add: find the slot, and take it, leave it, or give the entry up. */
    method Settle(nId: int, source: NetAddr, now: int, ghost limbo: set<int>, ghost extra: int)
      requires Shaped() && Between(env, Value(), limbo, extra) && Settleable(env, Value(), nId, source)
      requires !mapInfo[nId].inTried
      modifies this`mapInfo, this`mapAddr, this`vRandom, this`nNew, vvNew
      ensures Value() == AddrTables.Settle(env, old(Value()), nId, source, now)
    {
      ghost var s := Value();
      assert IdIndexed(s, nId);
      var nUBucket := NewBucket(env, nKey, mapInfo[nId].svc, source);
      var nUBucketPos := BucketPosition(env, nKey, mapInfo[nId].svc, true, nUBucket);
      ghost var slot := NewSlot(env, nKey, mapInfo[nId].svc, source);
      assert slot in s.newTab <==> vvNew[nUBucket, nUBucketPos] != -1;
      if vvNew[nUBucket, nUBucketPos] != nId {
        var fInsert := vvNew[nUBucket, nUBucketPos] == -1;
        if !fInsert {
          assert NewHashed(env, s, slot);
          var infoExisting := mapInfo[vvNew[nUBucket, nUBucketPos]];
          if IsTerrible(infoExisting, now) || (infoExisting.refCount > 1 && mapInfo[nId].refCount == 0) {
            fInsert := true;
          }
        }
        assert fInsert <==> Replaceable(s, nId, slot, now);
        if fInsert {
          ClearNew(nUBucket, nUBucketPos, limbo, extra);
          TakeNew(nId, nUBucket, nUBucketPos);
        } else if mapInfo[nId].refCount == 0 {
          Delete(nId);
        }
      }
    }

    method TakeNew(nId: int, nUBucket: nat, nUBucketPos: nat)
      requires Shaped() && nUBucket < NEW_BUCKET_COUNT && nUBucketPos < BUCKET_SIZE && nId in mapInfo && nId != -1
      modifies this`mapInfo, vvNew
      ensures Value() == PlaceNew(old(Value()), nId, Slot(nUBucket, nUBucketPos))
    {
      mapInfo := mapInfo[nId := mapInfo[nId].(refCount := mapInfo[nId].refCount + 1)];
      Store(vvNew, nUBucket, nUBucketPos, nId);
    }

    method Add(addr: Address, source: NetAddr, nTimePenalty: int, now: int, rnd: nat) returns (fNew: bool)
      requires Valid()
      modifies this, vvNew
      ensures Valid() && Value() == AddrTables.Add(env, old(Value()), addr, source, nTimePenalty, now, rnd)
      ensures fNew <==> env.routable(addr.svc.ip) && addr.svc.ip !in old(mapAddr)
    {
      ghost var s := Value();
      AddKeeps(env, s, addr, source, nTimePenalty, now, rnd);
      if !env.routable(addr.svc.ip) { return false; }
      fNew := false;
      assert addr.svc.ip in mapAddr ==> AddrIndexed(s, addr.svc.ip);
      var found := Find(addr.svc.ip);
      var penalty := nTimePenalty;
      if addr.svc.ip == source { penalty := 0; }
      if found.Some? {
        AddKnown(addr, found.value, source, penalty, now, rnd);
      } else {
        AddUnknown(addr, source, penalty, now);
        fNew := true;
      }
    }

    /** The branch of Add for an address heard of for the first time. */
    method AddUnknown(addr: Address, source: NetAddr, penalty: int, now: int)
      requires Valid() && Lookup(Value(), addr.svc.ip).None?
      modifies this, vvNew
      ensures var s1 := Admit(old(Value()), addr, source, penalty);
              Settleable(env, s1, old(nIdCount), source)
                  && Value() == AddrTables.Settle(env, s1, old(nIdCount), source, now)
    {
      ghost var s := Value();
      ghost var s1 := Admit(s, addr, source, penalty);
      AdmitIndexed(s, addr, source, penalty);
      AdmitKeeps(env, s, addr, source, penalty);
      SettleKeeps(env, s1, s.idCount, source, now);
      var nId := CreatePenalized(addr, source, penalty);
      Settle(nId, source, now, {nId}, 1);
    }

    method CreatePenalized(addr: Address, source: NetAddr, penalty: int) returns (nId: int)
      requires Shaped()
      modifies this
      ensures nId == old(nIdCount) && Value() == Admit(old(Value()), addr, source, penalty)
    {
      nId := Create(addr, source);
      mapInfo := mapInfo[nId := mapInfo[nId].(time := Max(0, mapInfo[nId].time - penalty))];
      nNew := nNew + 1;
      assert mapInfo == Admit(old(Value()), addr, source, penalty).info;
    }

    /** Whether a known address gets another slot: the early returns and the lottery of Add. */
    static method WinsSlot(info: Info, addr: Address, rnd: nat) returns (wins: bool)
      requires info.inTried || info.refCount >= 0
      ensures wins <==> WantsAnotherSlot(info, addr, rnd)
    {
      if addr.time == 0 || (info.time != 0 && addr.time <= info.time) { return false; }
      if info.inTried { return false; }
      if info.refCount == NEW_BUCKETS_PER_ADDRESS { return false; }
      var nFactor := 1;
      for n := 0 to info.refCount
        invariant nFactor == Powers.Pow2(n)
      {
        nFactor := nFactor * 2;
      }
      wins := !(nFactor > 1 && rnd % nFactor != 0);
    }

    static method RefreshInfo(old_: Info, addr: Address, penalty: int, now: int) returns (info: Info)
      ensures info == Refresh(old_, addr, penalty, now)
    {
      info := old_;
      var fCurrentlyOnline := now - addr.time < 24 * 60 * 60;
      var nUpdateInterval := if fCurrentlyOnline then 60 * 60 else 24 * 60 * 60;
      if addr.time != 0 && (info.time == 0 || info.time < addr.time - nUpdateInterval - penalty) {
        info := info.(time := Max(0, addr.time - penalty));
      }
      info := info.(services := info.services + addr.services);
    }

    /** The branch of Add for an address that is known already. */
    method AddKnown(addr: Address, nId: int, source: NetAddr, penalty: int, now: int, rnd: nat)
      requires Valid() && nId in mapInfo
      modifies this`mapInfo, this`mapAddr, this`vRandom, this`nNew, vvNew
      ensures var i := Refresh(old(mapInfo)[nId], addr, penalty, now);
              var s1 := old(Value()).(info := old(mapInfo)[nId := i]);
              if WantsAnotherSlot(i, addr, rnd)
              then Settleable(env, s1, nId, source) && Value() == AddrTables.Settle(env, s1, nId, source, now)
              else Value() == s1
    {
      ghost var s := Value();
      var info := RefreshInfo(mapInfo[nId], addr, penalty, now);
      mapInfo := mapInfo[nId := info];
      ghost var s1 := Value();
      ConsistentUpdate(env, s, s1, nId);
      assert IdReferenced(env, s1, {}, nId);
      var wins := WinsSlot(info, addr, rnd);
      if wins {
        RoomLeft(env, s1, nId);
        SettleKeeps(env, s1, nId, source, now);
        Settle(nId, source, now, {}, 0);
      }
    }

    method DrawRandom(n: nat, r: nat)
      requires Shaped() && Indexed(Value()) && n < |vRandom|
      modifies this`mapInfo, this`vRandom
      ensures Value() == Draw(old(Value()), n, r) && Indexed(Value()) && Shuffled(old(Value()), Value())
              && vRandom[n] in mapInfo
    {
      DrawKeeps(Value(), n, r);
      SwapRandom(n, r % (|vRandom| - n) + n);
    }

    /** The addresses of a getaddr reply, with the ids of the entries they come from. */
    method GetAddr(now: int, rnd: nat -> nat) returns (vAddr: seq<Address>, ghost ids: seq<int>)
      requires Valid()
      modifies this`mapInfo, this`vRandom
      ensures Valid() && (Value(), ids) == AddrTables.GetAddr(old(Value()), now, rnd)
      ensures Replies(old(mapInfo), ids, vAddr)
    {
      hide Draw, IsTerrible, Table, Hashed, Referenced, Counted;
      ghost var s := Value();
      GetAddrReply(env, s, now, rnd);
      var nNodes := GETADDR_MAX_PCT * |vRandom| / 100;
      if nNodes > GETADDR_MAX { nNodes := GETADDR_MAX; }
      vAddr, ids := [], [];
      var n := 0;
      while n < |vRandom|
        invariant Shaped() && Indexed(Value()) && 0 <= n <= |vRandom|
        invariant Gather(Value(), n, ids, nNodes, now, rnd) == AddrTables.GetAddr(s, now, rnd)
        invariant Replies(mapInfo, ids, vAddr)
        decreases |vRandom| - n
      {
        if |vAddr| >= nNodes { break; }
        ghost var s0 := Value();
        DrawRandom(n, rnd(n));
        RepliesShuffled(s0, Value(), ids, vAddr);
        var ai := mapInfo[vRandom[n]];
        if !IsTerrible(ai, now) {
          vAddr := vAddr + [AddressOf(ai)];
        }
        ids := ids + Relay(Value(), vRandom[n], now);
        n := n + 1;
      }
      RepliesShuffled(s, Value(), ids, vAddr);
    }

    method Attempt(addr: Service, fCountFailure: bool, nTime: int)
      requires Valid()
      modifies this`mapInfo
      ensures Valid() && Value() == AddrTables.Attempt(old(Value()), addr, fCountFailure, nTime)
    {
      StepKeeps(env, Value(), OpAttempt(addr, fCountFailure, nTime));
      var found := Find(addr.ip);
      if found.None? { return; }
      var nId := found.value;
      var info := mapInfo[nId];
      if info.svc != addr { return; }
      info := info.(lastTry := nTime);
      if fCountFailure && info.lastCountAttempt < nLastGood {
        info := info.(lastCountAttempt := nTime, attempts := info.attempts + 1);
      }
      mapInfo := mapInfo[nId := info];
    }

    method Connected(addr: Service, nTime: int)
      requires Valid()
      modifies this`mapInfo
      ensures Valid() && Value() == AddrTables.Connected(old(Value()), addr, nTime)
    {
      StepKeeps(env, Value(), OpConnected(addr, nTime));
      var found := Find(addr.ip);
      if found.None? { return; }
      var nId := found.value;
      if mapInfo[nId].svc != addr { return; }
      if nTime - mapInfo[nId].time > 20 * 60 {
        mapInfo := mapInfo[nId := mapInfo[nId].(time := nTime)];
      }
    }

    method SetServices(addr: Service, nServices: set<nat>)
      requires Valid()
      modifies this`mapInfo
      ensures Valid() && Value() == AddrTables.SetServices(old(Value()), addr, nServices)
    {
      StepKeeps(env, Value(), OpSetServices(addr, nServices));
      var found := Find(addr.ip);
      if found.None? { return; }
      var nId := found.value;
      if mapInfo[nId].svc != addr { return; }
      mapInfo := mapInfo[nId := mapInfo[nId].(services := nServices)];
    }

    // ------------------------------------------------------------ the file

    /** All slots of a bucket array emptied. */
    static method Empty(a: array2<int>)
      modifies a
      ensures Table(a) == map[]
    {
      for bucket := 0 to a.Length0
        invariant forall b, p :: 0 <= b < bucket && 0 <= p < a.Length1 ==> a[b, p] == -1
      {
        for entry := 0 to a.Length1
          invariant forall b, p :: 0 <= b < bucket && 0 <= p < a.Length1 ==> a[b, p] == -1
          invariant forall p :: 0 <= p < entry ==> a[bucket, p] == -1
        {
          a[bucket, entry] := -1;
        }
      }
      assert Table(a) == map[];
    }

    /** The maps stay as they are. */
    method Clear(key: nat)
      requires Shaped()
      modifies this, vvTried, vvNew
      ensures Shaped() && Value() == Initial(key).(info := old(mapInfo), ids := old(mapAddr))
    {
      vRandom := [];
      nKey := key;
      Empty(vvNew);
      Empty(vvTried);
      nIdCount, nTried, nNew, nLastGood := 0, 0, 0, 1;
    }

    /** The entries of one kind, in increasing order of their ids, and the place each id had in that list. */
    method Select(inTried: bool) returns (records: seq<Record>, mapUnkIds: map<int, int>, ghost q: seq<int>)
      requires Shaped() && Indexed(Value())
      ensures Enumerates(q, mapInfo.Keys) && Known(Value(), q)
      ensures Known(Value(), Selected(Value(), q, inTried))
              && records == Records(Value(), Selected(Value(), q, inTried))
      ensures forall x :: x in mapInfo && Chosen(mapInfo[x], inTried) ==>
                x in mapUnkIds && mapUnkIds[x] == IndexOf(Selected(Value(), q, inTried), x)
      ensures q == IdsBelow(mapInfo, nIdCount)
    {
      hide Listed;
      ghost var s := Value();
      records, mapUnkIds := [], map[];
      q := [];
      ListedNone(s, inTried);
      for id := 0 to nIdCount
        invariant q == IdsBelow(mapInfo, id) && Listed(s, q, inTried, records, mapUnkIds)
      {
        if id in mapInfo {
          IdsBelowAre(mapInfo, id);
          ListedOne(s, q, id, inTried, records, mapUnkIds);
          q := q + [id];
          mapUnkIds := mapUnkIds[id := |records|];
          if Chosen(mapInfo[id], inTried) { records := records + [Recorded(mapInfo[id])]; }
        }
      }
      ListedAll(s, inTried, records, mapUnkIds);
    }

    /** The indices of one bucket. */
    method ListBucket(bucket: nat, mapUnkIds: map<int, int>, ghost news: seq<int>) returns (xs: seq<int>)
      requires Valid() && bucket < NEW_BUCKET_COUNT
      requires forall x :: x in mapInfo && Chosen(mapInfo[x], false) ==>
                 x in mapUnkIds && mapUnkIds[x] == IndexOf(news, x)
      ensures xs == BucketList(Value(), news, bucket, BUCKET_SIZE)
    {
      ghost var s := Value();
      xs := [];
      for i := 0 to BUCKET_SIZE
        invariant xs == BucketList(s, news, bucket, i)
      {
        assert Slot(bucket, i) in s.newTab <==> vvNew[bucket, i] != -1;
        if vvNew[bucket, i] != -1 {
          assert NewHashed(env, s, Slot(bucket, i));
          OneTable(env, s, vvNew[bucket, i]);
          xs := xs + [mapUnkIds[vvNew[bucket, i]]];
        }
      }
    }

    method Serialize() returns (file: File, ghost q: seq<int>)
      requires Valid()
      ensures Enumerates(q, mapInfo.Keys) && Known(Value(), q) && file == Saved(Value(), q)
      ensures Sane(file) && file.nNew == nNew && file.nTried == nTried
    {
      ghost var s := Value();
      var news, mapUnkIds, q0 := Select(false);
      var trieds, others, q1 := Select(true);
      q := q0;
      ghost var ids := Selected(s, q, false);
      var buckets: seq<seq<int>> := [];
      for bucket := 0 to NEW_BUCKET_COUNT
        invariant buckets == BucketLists(s, ids, bucket)
      {
        var xs := ListBucket(bucket, mapUnkIds, ids);
        buckets := buckets + [xs];
      }
      file := File(1, nKey, nNew, nTried, NEW_BUCKET_COUNT, news, trieds, buckets);
      SavedSane(env, s, q);
    }

    static lemma Occupied(a: array2<int>, b: nat, p: nat)
      requires b < a.Length0 && p < a.Length1
      ensures Slot(b, p) in Table(a) <==> a[b, p] != -1
    {
    }

    /** A record of the new table, read as entry n. The counter of ids is set only after all of them. */
    method ReadNew(n: int, r: Record, usable: bool, ghost lag: int, ghost s: State)
      requires Shaped() && Value().(idCount := n, nTried := lag) == s && n != -1
      modifies this`mapInfo, this`mapAddr, this`vRandom, vvNew
      ensures Value().(idCount := n + 1, nTried := lag) == LoadNew(env, s, r, usable)
    {
      hide Table, NewBucket, BucketPosition;
      mapInfo := mapInfo[n := Revived(r, false, |vRandom|)];
      mapAddr := mapAddr[r.svc.ip := n];
      vRandom := vRandom + [n];
      assert Value().(idCount := n + 1, nTried := lag) == Enlisted(s, r, false);
      if !usable {
        var nUBucket := NewBucket(env, nKey, r.svc, r.source);
        var nUBucketPos := BucketPosition(env, nKey, r.svc, true, nUBucket);
        Occupied(vvNew, nUBucket, nUBucketPos);
        if vvNew[nUBucket, nUBucketPos] == -1 { TakeNew(n, nUBucket, nUBucketPos); }
      }
    }

    /** A record of the tried table, kept if its slot is free. */
    method ReadTried(r: Record, ghost s: State) returns (lost: bool)
      requires Shaped() && Value().(nTried := s.nTried) == s
      modifies this`mapInfo, this`mapAddr, this`vRandom, this`nIdCount, vvTried
      ensures Value().(nTried := LoadTried(env, s, r).nTried) == LoadTried(env, s, r)
      ensures LoadTried(env, s, r).nTried == s.nTried + if lost then 0 else 1
      ensures nIdCount >= old(nIdCount)
    {
      hide Table, TriedBucket, BucketPosition;
      var nKBucket := TriedBucket(env, nKey, r.svc);
      var nKBucketPos := BucketPosition(env, nKey, r.svc, false, nKBucket);
      Occupied(vvTried, nKBucket, nKBucketPos);
      lost := vvTried[nKBucket, nKBucketPos] != -1;
      if !lost {
        var info := Revived(r, true, |vRandom|);
        vRandom := vRandom + [nIdCount];
        mapInfo := mapInfo[nIdCount := info];
        mapAddr := mapAddr[r.svc.ip := nIdCount];
        Store(vvTried, nKBucket, nKBucketPos, nIdCount);
        nIdCount := nIdCount + 1;
      }
    }

    /** An index listed under a bucket. */
    method ReadIndex(bucket: nat, nIndex: int, count: nat)
      requires Shaped() && bucket < NEW_BUCKET_COUNT && NewsFirst(Value(), count)
      modifies this`mapInfo, vvNew
      ensures Value() == LoadIndex(env, old(Value()), bucket, nIndex, count) && NewsFirst(Value(), count)
    {
      if 0 <= nIndex < count {
        assert nIndex in mapInfo;
        var nUBucketPos := BucketPosition(env, nKey, mapInfo[nIndex].svc, true, bucket);
        assert Slot(bucket, nUBucketPos) in Value().newTab <==> vvNew[bucket, nUBucketPos] != -1;
        if vvNew[bucket, nUBucketPos] == -1 && mapInfo[nIndex].refCount < NEW_BUCKETS_PER_ADDRESS {
          TakeNew(nIndex, bucket, nUBucketPos);
        }
      }
    }

    method ReadBuckets(buckets: seq<seq<int>>, count: nat)
      requires Shaped() && |buckets| <= NEW_BUCKET_COUNT && NewsFirst(Value(), count)
      modifies this`mapInfo, vvNew
      ensures Value() == LoadBuckets(env, old(Value()), buckets, count)
    {
      hide NewsFirst, LoadIndex;
      ghost var s := Value();
      assert buckets[..0] == [];
      for bucket := 0 to |buckets|
        invariant Value() == LoadBuckets(env, s, buckets[..bucket], count) && NewsFirst(Value(), count)
      {
        ghost var u := Value();
        var xs := buckets[bucket];
        assert xs[..0] == [];
        for n := 0 to |xs|
          invariant Value() == LoadBucket(env, u, bucket, xs[..n], count) && NewsFirst(Value(), count)
        {
          ReadIndex(bucket, xs[n], count);
          assert xs[..n + 1][..n] == xs[..n];
        }
        assert xs[..|xs|] == xs && buckets[..bucket + 1][..bucket] == buckets[..bucket];
      }
      assert buckets[..|buckets|] == buckets;
    }

    method ReadEntries(file: File)
      requires Shaped() && Whole(file) && Value() == Initial(file.key)
      modifies this, vvTried, vvNew
      ensures Value() == Entries(env, file)
    {
      hide LoadNew, LoadTried, Table;
      nNew := file.nNew;
      nTried := file.nTried;
      ghost var start, lag := Start(file), Lag(file.nTried);
      assert file.news[..0] == [] && file.trieds[..0] == [];
      for n := 0 to |file.news|
        invariant nTried == file.nTried && nNew == file.nNew
        invariant n == 0 ==> Value().(idCount := Lag(nNew), nTried := lag) == start
        invariant n > 0 ==> Value().(idCount := n, nTried := lag) == LoadNews(env, start, file.news[..n], file.Usable())
      {
        assert file.news[..n + 1][..n] == file.news[..n];
        ReadNew(n, file.news[n], file.Usable(), lag, LoadNews(env, start, file.news[..n], file.Usable()));
      }
      nIdCount := nNew;
      assert file.news[..|file.news|] == file.news;
      ghost var s := LoadNews(env, start, file.news, file.Usable());
      var nLost := 0;
      for n := 0 to |file.trieds|
        invariant nTried == file.nTried
        invariant Value().(nTried := lag + n - nLost) == LoadTrieds(env, s, file.trieds[..n])
      {
        assert file.trieds[..n + 1][..n] == file.trieds[..n];
        var lost := ReadTried(file.trieds[n], LoadTrieds(env, s, file.trieds[..n]));
        if lost { nLost := nLost + 1; }
      }
      assert file.trieds[..|file.trieds|] == file.trieds;
      nTried := nTried - nLost;
    }

    /** Delete the new entries that got no reference. */
    method Prune(first: int, ghost u: State, ghost lag: int)
      requires Shaped() && Value() == u && first <= nIdCount
      requires Unreferenced(u) == {} || (Loading(env, u, 0, lag) && first == 0)
      modifies this`mapInfo, this`mapAddr, this`vRandom, this`nNew
      ensures Unreferenced(u) == {} ==> Value() == u
      ensures Loading(env, u, 0, lag) ==> PrunedTo(env, u, Value(), {}, lag)
    {
      hide Fitted, Loading;
      ghost var left := Unreferenced(u);
      if Loading(env, u, 0, lag) {
        PruneStart(env, u, lag);
        UnreferencedIds(env, u, lag);
      }
      for id := first to nIdCount
        invariant Unreferenced(u) == {} ==> Value() == u
        invariant Loading(env, u, 0, lag) ==> PrunedTo(env, u, Value(), left, lag)
        invariant left <= Unreferenced(u) && forall x :: x in left <==> x in Unreferenced(u) && x >= id
      {
        if id in mapInfo && !mapInfo[id].inTried && mapInfo[id].refCount == 0 {
          assert id in Unreferenced(u);
          PruneOne(env, u, Value(), left, id, lag);
          Delete(id);
          left := left - {id};
        }
      }
      assert left == {};
    }

    lemma PlacedFrom(file: File)
      ensures Placed(env, file) ==
                if file.Usable() then LoadBuckets(env, Entries(env, file), file.buckets, |file.news|)
                    else Entries(env, file)
    {
    }

    /** Reading a file into a new manager. It is consistent exactly if the file is sound, and its times are in order
        exactly if those of the entries that are kept were. */
    method Unserialize(file: File, key: nat) returns (ok: bool)
      requires Shaped() && mapInfo == map[] && mapAddr == map[] && Whole(file)
      modifies this, vvTried, vvNew
      ensures ok <==> Accepted(file)
      ensures !ok ==> Value() == Initial(file.key).(nNew := file.nNew, nTried := file.nTried)
      ensures ok ==> LoadedAs(env, file, Value()) && (Valid() <==> Sound(env, file))
      ensures ok ==> (Timed(Value()) <==> Successes(Placed(env, file)))
    {
      hide PrunedTo, NewsFirst, NoClash, Placed, Consistent, Entries, Loading, Successes, Timed, Sound;
      Clear(key);
      nKey := file.key;
      ok := Accepted(file);
      if !ok {
        nNew := file.nNew;
        nTried := file.nTried;
        return;
      }
      ReadEntries(file);
      if file.nNew < 0 {
        NothingYet(Value());
        NothingNew(env, file);
        EntriesCount(env, file);
      } else {
        FileLoads(env, file);
        UnreferencedIds(env, Placed(env, file), Lag(file.nTried));
      }
      if file.Usable() { ReadBuckets(file.buckets, |file.news|); }
      PlacedFrom(file);
      Prune(if file.nNew < 0 then file.nNew else 0, Placed(env, file), Lag(file.nTried));
      LoadedIff(env, file, Value());
      LoadedTimed(env, file, Value());
    }
  }

  /** Saving one manager and reading the file into a new one. */
  method Reload(from: CAddrMan, into: CAddrMan, key: nat) returns (ghost f: seq<int>)
    requires from.Valid() && into.Shaped() && into.mapInfo == map[] && into.mapAddr == map[] && into.env == from.env
    requires into != from && into.vvTried != from.vvTried && into.vvNew != from.vvNew
    requires into.vvTried != from.vvNew && into.vvNew != from.vvTried
    modifies into, into.vvTried, into.vvNew
    ensures into.Valid() && from.Value() == old(from.Value()) && Isomorphic(from.Value(), into.Value(), f)
  {
    hide Consistent, Saved, Placed, PrunedTo, Isomorphic, Enumerates, Known;
    ghost var s := from.Value();
    var file, q := from.Serialize();
    var ok := into.Unserialize(file, key);
    SavedRestored(from.env, s, q, into.Value());
    f := Order(s, q);
  }

  /** The ids of the map below a bound, in increasing order. */
  ghost function IdsBelow(info: map<int, Info>, n: nat): seq<int> {
    if n == 0 then [] else IdsBelow(info, n - 1) + if n - 1 in info then [n - 1] else []
  }

  lemma {:induction false} IdsBelowAre(info: map<int, Info>, n: nat)
    ensures Distinct(IdsBelow(info, n)) && forall x :: x in IdsBelow(info, n) <==> x in info && 0 <= x < n
  {
    if n > 0 { IdsBelowAre(info, n - 1); }
  }

  /** One more id gone through. */
  lemma SelectMore(s: State, q: seq<int>, id: int, inTried: bool)
    requires Known(s, q) && id in s.info && id !in q && Known(s, Selected(s, q, inTried))
    ensures Known(s, q + [id])
    ensures var ids := Selected(s, q, inTried); var more := Selected(s, q + [id], inTried);
            && more == (if Chosen(s.info[id], inTried) then ids + [id] else ids) && Known(s, more)
            && Records(s, more)
               == (if Chosen(s.info[id], inTried) then Records(s, ids) + [Recorded(s.info[id])] else Records(s, ids))
            && (Chosen(s.info[id], inTried) ==> IndexOf(more, id) == |ids|)
            && forall x :: x in q ==> IndexOf(more, x) == IndexOf(ids, x)
  {
    assert (q + [id])[..|q|] == q;
    var ids := Selected(s, q, inTried);
    assert (ids + [id])[..|ids|] == ids;
  }

  /** What Serialize has listed after going through the ids of q. */
  ghost predicate Listed(s: State, q: seq<int>, inTried: bool, records: seq<Record>, mapUnkIds: map<int, int>) {
    && Known(s, q) && var ids := Selected(s, q, inTried);
    && Known(s, ids) && records == Records(s, ids)
    && forall x :: x in q && x in s.info && Chosen(s.info[x], inTried) ==>
         x in mapUnkIds && mapUnkIds[x] == IndexOf(ids, x)
  }

  lemma ListedNone(s: State, inTried: bool)
    ensures Listed(s, [], inTried, [], map[])
  {
  }

  lemma ListedOne(s: State, q: seq<int>, id: int, inTried: bool, records: seq<Record>, mapUnkIds: map<int, int>)
    requires Listed(s, q, inTried, records, mapUnkIds) && id in s.info && id !in q
    ensures Listed(s, q + [id], inTried,
              if Chosen(s.info[id], inTried) then records + [Recorded(s.info[id])] else records,
              mapUnkIds[id := |records|])
  {
    hide Selected, Records, IndexOf, Recorded, Chosen, Known;
    SelectMore(s, q, id, inTried);
    RecordsSize(s, Selected(s, q, inTried));
  }

  lemma ListedAll(s: State, inTried: bool, records: seq<Record>, mapUnkIds: map<int, int>)
    requires Indexed(s) && Listed(s, IdsBelow(s.info, s.idCount), inTried, records, mapUnkIds)
    ensures var q := IdsBelow(s.info, s.idCount);
            && Enumerates(q, s.info.Keys) && Known(s, q) && var ids := Selected(s, q, inTried);
            && Known(s, ids) && records == Records(s, ids)
            && forall x :: x in s.info && Chosen(s.info[x], inTried) ==>
                 x in mapUnkIds && mapUnkIds[x] == IndexOf(ids, x)
  {
    hide Selected, Records, IndexOf;
    IdsBelowAre(s.info, s.idCount);
    forall x | x in s.info ensures 0 <= x < s.idCount { assert IdIndexed(s, x); }
  }

  function AddressOf(i: Info): Address {
    Address(i.svc, i.services, i.time)
  }

  /** `vAddr` lists the addresses of the entries `ids`, in order. */
  ghost predicate Replies(info: map<int, Info>, ids: seq<int>, vAddr: seq<Address>) {
    |vAddr| == |ids| && forall k :: 0 <= k < |ids| ==> ids[k] in info && vAddr[k] == AddressOf(info[ids[k]])
  }

  lemma RepliesShuffled(s: State, t: State, ids: seq<int>, vAddr: seq<Address>)
    requires Shuffled(s, t)
    ensures Replies(s.info, ids, vAddr) <==> Replies(t.info, ids, vAddr)
  {
    forall x | x in s.info ensures AddressOf(s.info[x]) == AddressOf(t.info[x]) {
      assert t.info[x] == s.info[x].(randomPos := t.info[x].randomPos);
    }
  }

  lemma WithdrawNone(env: Env, s: State, id: int)
    requires id in s.info
    ensures Withdraw(env, s, id, 0) == s
  {
    assert HashHolders(env, s, id, 0) == {};
    assert s.info[id := s.info[id]] == s.info && s.newTab - {} == s.newTab;
  }

  lemma WithdrawMore(s: State, id: int, h: set<Slot>, sl: Slot)
    requires id in s.info && sl in s.newTab && s.newTab[sl] == id && sl !in h
    ensures var w := WithdrawFrom(s, id, h);
            sl in w.newTab && w.newTab[sl] == id && WithdrawFrom(s, id, h + {sl}) == Unplace(w, sl)
  {
    var w, v := WithdrawFrom(s, id, h), WithdrawFrom(s, id, h + {sl});
    assert v.newTab == w.newTab - {sl};
    assert v.info == w.info[id := v.info[id]];
  }

  lemma HashHoldersOne(env: Env, s: State, id: int, b: nat)
    requires id in s.info
    ensures var sl := NewSlotIn(env, s.key, s.info[id].svc, b); var h := HashHolders(env, s, id, b);
            && sl !in h
            && HashHolders(env, s, id, b + 1) == if sl in s.newTab && s.newTab[sl] == id then h + {sl} else h
  {
    var sl := NewSlotIn(env, s.key, s.info[id].svc, b);
    var h, h1 := HashHolders(env, s, id, b), HashHolders(env, s, id, b + 1);
    forall x | x in h1 ensures x in h || (x == sl && sl in s.newTab && s.newTab[sl] == id) { }
    forall x | x in h ensures x in h1 { }
  }

  /** One more bucket of the withdrawal. */
  lemma WithdrawOne(env: Env, s: State, id: int, b: nat)
    requires id in s.info
    ensures var w := Withdraw(env, s, id, b); var sl := NewSlotIn(env, s.key, s.info[id].svc, b);
            && (sl in w.newTab <==> sl in s.newTab) && (sl in s.newTab ==> w.newTab[sl] == s.newTab[sl])
            && Withdraw(env, s, id, b + 1) == if sl in s.newTab && s.newTab[sl] == id then Unplace(w, sl) else w
  {
    HashHoldersOne(env, s, id, b);
    var sl := NewSlotIn(env, s.key, s.info[id].svc, b);
    if sl in s.newTab && s.newTab[sl] == id {
      WithdrawMore(s, id, HashHolders(env, s, id, b), sl);
    }
  }
}
