/** The address manager's tables as plain values: the state that the class in
    AddrMan.dfy keeps, what each operation does to it, and the consistency
    condition that `Check_` spells out. */
module AddrTables {

  import Powers

  const TRIED_BUCKET_COUNT: nat := 256
  const NEW_BUCKET_COUNT: nat := 1024
  const BUCKET_SIZE: nat := 64
  const TRIED_BUCKETS_PER_GROUP: nat := 8
  const NEW_BUCKETS_PER_SOURCE_GROUP: nat := 64
  const NEW_BUCKETS_PER_ADDRESS: nat := 8
  const HORIZON_DAYS := 30
  const RETRIES := 3
  const MAX_FAILURES := 10
  const MIN_FAIL_DAYS := 7
  const GETADDR_MAX_PCT: nat := 23
  const GETADDR_MAX: nat := 2500

  datatype Option<+T> = None | Some(value: T)

  /** Addresses are byte strings; service flags are the set of the flag bits that are on. */
  datatype NetAddr = NetAddr(ip: seq<nat>)
  datatype Service = Service(ip: NetAddr, port: nat)
  datatype Address = Address(svc: Service, services: set<nat>, time: int)

  /** One value written into the hash writer. */
  datatype Item = Key(key: nat) | Group(group: seq<nat>) | Endpoint(svc: Service) | Letter(c: char) | Number(n: nat)

  /** What the model leaves uninterpreted: the hash, the address group and the routability test. */
  datatype Env = Env(digest: seq<Item> -> nat, group: NetAddr -> seq<nat>, routable: NetAddr -> bool)

  datatype Info = Info(
    svc: Service, services: set<nat>, time: int, source: NetAddr,
    lastTry: int, lastCountAttempt: int, lastSuccess: int, attempts: int,
    refCount: int, inTried: bool, randomPos: int)

  datatype Slot = Slot(bucket: nat, pos: nat)

  /** `triedTab` and `newTab` hold the non-empty slots of vvTried and vvNew. */
  datatype State = State(
    idCount: int, info: map<int, Info>, ids: map<NetAddr, int>, random: seq<int>,
    nTried: int, triedTab: map<Slot, int>, nNew: int, newTab: map<Slot, int>,
    lastGood: int, key: nat)

  function TriedBucket(env: Env, key: nat, svc: Service): (b: nat)
    ensures b < TRIED_BUCKET_COUNT
  {
    var hash1 := env.digest([Key(key), Endpoint(svc)]);
    var hash2 := env.digest([Key(key), Group(env.group(svc.ip)), Number(hash1 % TRIED_BUCKETS_PER_GROUP)]);
    hash2 % TRIED_BUCKET_COUNT
  }

  function NewBucket(env: Env, key: nat, svc: Service, source: NetAddr): (b: nat)
    ensures b < NEW_BUCKET_COUNT
  {
    var sourceGroup := env.group(source);
    var hash1 := env.digest([Key(key), Group(env.group(svc.ip)), Group(sourceGroup)]);
    var hash2 := env.digest([Key(key), Group(sourceGroup), Number(hash1 % NEW_BUCKETS_PER_SOURCE_GROUP)]);
    hash2 % NEW_BUCKET_COUNT
  }

  function BucketPosition(env: Env, key: nat, svc: Service, isNew: bool, bucket: nat): (p: nat)
    ensures p < BUCKET_SIZE
  {
    env.digest([Key(key), Letter(if isNew then 'N' else 'K'), Number(bucket), Endpoint(svc)]) % BUCKET_SIZE
  }

  function TriedSlot(env: Env, key: nat, svc: Service): Slot {
    var b := TriedBucket(env, key, svc);
    Slot(b, BucketPosition(env, key, svc, false, b))
  }

  /** The one place of new bucket `b` in which this address may sit. */
  function NewSlotIn(env: Env, key: nat, svc: Service, b: nat): Slot {
    Slot(b, BucketPosition(env, key, svc, true, b))
  }

  function NewSlot(env: Env, key: nat, svc: Service, source: NetAddr): Slot {
    NewSlotIn(env, key, svc, NewBucket(env, key, svc, source))
  }

  predicate IsTerrible(info: Info, now: int) {
    if info.lastTry != 0 && info.lastTry >= now - 60 then false
    else if info.time > now + 10 * 60 then true
    else if info.time == 0 || now - info.time > HORIZON_DAYS * 24 * 60 * 60 then true
    else if info.lastSuccess == 0 && info.attempts >= RETRIES then true
    else now - info.lastSuccess > MIN_FAIL_DAYS * 24 * 60 * 60 && info.attempts >= MAX_FAILURES
  }

  /** Tried within the last minute. */
  predicate JustTried(i: Info, now: int) { i.lastTry != 0 && now - i.lastTry <= 60 }

  /** Seen within the last 30 days, and at most ten minutes ahead of the clock. */
  predicate SeenLately(i: Info, now: int) { i.time != 0 && -600 <= now - i.time <= 2592000 }

  /** Three attempts without any success, or ten without one in the last week. */
  predicate Failing(i: Info, now: int) {
    (i.attempts >= 3 && i.lastSuccess == 0) || (i.attempts >= 10 && now - i.lastSuccess > 604800)
  }

  predicate WorthKeeping(i: Info, now: int) { JustTried(i, now) || (SeenLately(i, now) && !Failing(i, now)) }

  /** The entries that may be thrown out are those that were not just tried, and not seen lately or keep failing. */
  lemma TerribleIff(i: Info, now: int)
    ensures IsTerrible(i, now) <==> !WorthKeeping(i, now)
  {
  }

  function Max(a: int, b: int): int { if a < b then b else a }

  // ---------------------------------------------------------------- operations

  function Initial(key: nat): State {
    State(0, map[], map[], [], 0, map[], 0, map[], 1, key)
  }

  function Lookup(s: State, ip: NetAddr): Option<int> {
    if ip in s.ids && s.ids[ip] in s.info then Some(s.ids[ip]) else None
  }

  function NewInfo(addr: Address, source: NetAddr, pos: int): Info {
    Info(addr.svc, addr.services, addr.time, source, 0, 0, 0, 0, 0, false, pos)
  }

  function Create(s: State, addr: Address, source: NetAddr): State {
    s.(idCount := s.idCount + 1,
       info := s.info[s.idCount := NewInfo(addr, source, |s.random|)],
       ids := s.ids[addr.svc.ip := s.idCount],
       random := s.random + [s.idCount])
  }

  function SwapRandom(s: State, i: nat, j: nat): State
    requires i < |s.random| && j < |s.random|
    requires s.random[i] in s.info && s.random[j] in s.info
  {
    if i == j then s else
      var a, b := s.random[i], s.random[j];
      var info1 := s.info[a := s.info[a].(randomPos := j)];
      s.(info := info1[b := info1[b].(randomPos := i)], random := s.random[i := b][j := a])
  }

  ghost predicate Deletable(s: State, id: int) {
    && id in s.info && 0 <= s.info[id].randomPos < |s.random|
    && s.random[s.info[id].randomPos] in s.info && s.random[|s.random| - 1] in s.info
  }

  function Delete(s: State, id: int): State
    requires Deletable(s, id)
  {
    var last := |s.random| - 1;
    var s1 := SwapRandom(s, s.info[id].randomPos, last);
    s1.(random := s1.random[..last],
        ids := s.ids - {s.info[id].svc.ip},
        info := s1.info - {id},
        nNew := s.nNew - 1)
  }

  /** Empty a slot of the new table and drop its entry's reference. */
  function Unplace(s: State, slot: Slot): State
    requires slot in s.newTab && s.newTab[slot] in s.info
  {
    var d := s.newTab[slot];
    s.(info := s.info[d := s.info[d].(refCount := s.info[d].refCount - 1)], newTab := s.newTab - {slot})
  }

  ghost predicate Clearable(s: State, slot: Slot) {
    slot in s.newTab ==>
      s.newTab[slot] in s.info && (s.info[s.newTab[slot]].refCount == 1 ==> Deletable(Unplace(s, slot), s.newTab[slot]))
  }

  function ClearNew(s: State, slot: Slot): State
    requires Clearable(s, slot)
  {
    if slot !in s.newTab then s else
      var d := s.newTab[slot];
      var s1 := Unplace(s, slot);
      if s1.info[d].refCount == 0 then Delete(s1, d) else s1
  }

  function PlaceNew(s: State, id: int, slot: Slot): State
    requires id in s.info
  {
    s.(info := s.info[id := s.info[id].(refCount := s.info[id].refCount + 1)], newTab := s.newTab[slot := id])
  }

  /** The slots of the first `n` new buckets that hold `id` where its own hash puts it. */
  function HashHolders(env: Env, s: State, id: int, n: nat): (h: set<Slot>)
    requires id in s.info
  {
    set b: nat | b < n && var sl := NewSlotIn(env, s.key, s.info[id].svc, b); sl in s.newTab && s.newTab[sl] == id
      :: NewSlotIn(env, s.key, s.info[id].svc, b)
  }

  function Withdraw(env: Env, s: State, id: int, n: nat): State
    requires id in s.info
  {
    WithdrawFrom(s, id, HashHolders(env, s, id, n))
  }

  function WithdrawFrom(s: State, id: int, slots: set<Slot>): State
    requires id in s.info
  {
    s.(info := s.info[id := s.info[id].(refCount := s.info[id].refCount - |slots|)], newTab := s.newTab - slots)
  }

  /** Take the entry out of its tried slot. */
  function Untry(s: State, slot: Slot): State
    requires slot in s.triedTab && s.triedTab[slot] in s.info
  {
    var e := s.triedTab[slot];
    s.(info := s.info[e := s.info[e].(inTried := false)], triedTab := s.triedTab - {slot}, nTried := s.nTried - 1)
  }

  function Enter(s: State, e: int, slot: Slot): State
    requires e in s.info
  {
    s.(info := s.info[e := s.info[e].(refCount := 1)], newTab := s.newTab[slot := e], nNew := s.nNew + 1)
  }

  ghost predicate Evictable(env: Env, s: State, slot: Slot) {
    && slot in s.triedTab && s.triedTab[slot] in s.info
    && var e := s.triedTab[slot]; var s1 := Untry(s, slot);
       var nslot := NewSlot(env, s.key, s.info[e].svc, s.info[e].source);
       Clearable(s1, nslot) && e in ClearNew(s1, nslot).info
  }

  function Evict(env: Env, s: State, slot: Slot): State
    requires Evictable(env, s, slot)
  {
    var e := s.triedTab[slot];
    var nslot := NewSlot(env, s.key, s.info[e].svc, s.info[e].source);
    Enter(ClearNew(Untry(s, slot), nslot), e, nslot)
  }

  function SetTried(s: State, id: int, slot: Slot): State
    requires id in s.info
  {
    s.(info := s.info[id := s.info[id].(inTried := true)], triedTab := s.triedTab[slot := id], nTried := s.nTried + 1)
  }

  function MakeTried(env: Env, s: State, id: int): State
    requires Consistent(env, s) && id in s.info && !s.info[id].inTried
  {
    var s1 := Withdraw(env, s, id, NEW_BUCKET_COUNT).(nNew := s.nNew - 1);
    WithdrawKeeps(env, s, id);
    var slot := TriedSlot(env, s.key, s.info[id].svc);
    if slot in s1.triedTab then
      EvictKeeps(env, s1, slot, {id});
      SetTried(Evict(env, s1, slot), id, slot)
    else SetTried(s1, id, slot)
  }

  function Touch(s: State, id: int, time: int): State
    requires id in s.info
  {
    s.(info := s.info[id := s.info[id].(lastSuccess := time, lastTry := time, attempts := 0)], lastGood := time)
  }

  function Good(env: Env, s: State, svc: Service, time: int): State
    requires Consistent(env, s)
  {
    var s0 := s.(lastGood := time);
    match Lookup(s, svc.ip)
    case None => s0
    case Some(id) =>
      if s.info[id].svc != svc then s0 else
        var s1 := Touch(s, id, time);
        ConsistentUpdate(env, s, s1, id);
        if s.info[id].inTried then s1 else MakeTried(env, s1, id)
  }

  function Refresh(i: Info, addr: Address, penalty: int, now: int): Info {
    var online := now - addr.time < 24 * 60 * 60;
    var interval := if online then 60 * 60 else 24 * 60 * 60;
    var t := if addr.time != 0 && (i.time == 0 || i.time < addr.time - interval - penalty)
             then Max(0, addr.time - penalty) else i.time;
    i.(time := t, services := i.services + addr.services)
  }

  /** Whether an already known address gets another chance at a new bucket. */
  predicate WantsAnotherSlot(i: Info, addr: Address, rnd: nat) {
    && addr.time != 0
    && !(i.time != 0 && addr.time <= i.time)
    && !i.inTried
    && i.refCount != NEW_BUCKETS_PER_ADDRESS
    && (i.refCount <= 0 || rnd % Powers.Pow2(i.refCount) == 0)
  }

  predicate Replaceable(s: State, id: int, slot: Slot, now: int)
    requires id in s.info && (slot in s.newTab ==> s.newTab[slot] in s.info)
  {
    slot in s.newTab ==>
      var existing := s.info[s.newTab[slot]];
      IsTerrible(existing, now) || (existing.refCount > 1 && s.info[id].refCount == 0)
  }

  ghost predicate Settleable(env: Env, s: State, id: int, source: NetAddr) {
    && Deletable(s, id)
    && var slot := NewSlot(env, s.key, s.info[id].svc, source);
       Clearable(s, slot) && (slot in s.newTab ==> s.newTab[slot] != id ==> id in ClearNew(s, slot).info)
  }

  function Settle(env: Env, s: State, id: int, source: NetAddr, now: int): State
    requires Settleable(env, s, id, source)
  {
    var slot := NewSlot(env, s.key, s.info[id].svc, source);
    if slot in s.newTab && s.newTab[slot] == id then s
    else if Replaceable(s, id, slot, now) then PlaceNew(ClearNew(s, slot), id, slot)
    else if s.info[id].refCount == 0 then Delete(s, id)
    else s
  }

  function Admit(s: State, addr: Address, source: NetAddr, penalty: int): State {
    Create(s, addr.(time := Max(0, addr.time - penalty)), source).(nNew := s.nNew + 1)
  }

  function Add(env: Env, s: State, addr: Address, source: NetAddr, timePenalty: int, now: int, rnd: nat): State
    requires Consistent(env, s)
  {
    if !env.routable(addr.svc.ip) then s else
      var penalty := if addr.svc.ip == source then 0 else timePenalty;
      match Lookup(s, addr.svc.ip)
      case Some(id) =>
        var i := Refresh(s.info[id], addr, penalty, now);
        var s1 := s.(info := s.info[id := i]);
        ConsistentUpdate(env, s, s1, id);
        if WantsAnotherSlot(i, addr, rnd) then
          RoomLeft(env, s1, id);
          SettleKeeps(env, s1, id, source, now);
          Settle(env, s1, id, source, now)
        else s1
      case None =>
        AdmitKeeps(env, s, addr, source, penalty);
        SettleKeeps(env, Admit(s, addr, source, penalty), s.idCount, source, now);
        Settle(env, Admit(s, addr, source, penalty), s.idCount, source, now)
  }

  function Attempt(s: State, svc: Service, countFailure: bool, time: int): State {
    match Lookup(s, svc.ip)
    case None => s
    case Some(id) =>
      var i := s.info[id];
      if i.svc != svc then s
      else if countFailure && i.lastCountAttempt < s.lastGood then
        s.(info := s.info[id := i.(lastTry := time, lastCountAttempt := time, attempts := i.attempts + 1)])
      else s.(info := s.info[id := i.(lastTry := time)])
  }

  function Connected(s: State, svc: Service, time: int): State {
    match Lookup(s, svc.ip)
    case None => s
    case Some(id) =>
      var i := s.info[id];
      if i.svc == svc && time - i.time > 20 * 60 then s.(info := s.info[id := i.(time := time)]) else s
  }

  function SetServices(s: State, svc: Service, services: set<nat>): State {
    match Lookup(s, svc.ip)
    case None => s
    case Some(id) =>
      if s.info[id].svc == svc then s.(info := s.info[id := s.info[id].(services := services)]) else s
  }

  function Min(a: nat, b: nat): nat { if a < b then a else b }

  /** How many addresses a getaddr reply may hold. */
  function GetAddrLimit(s: State): nat {
    Min(GETADDR_MAX_PCT * |s.random| / 100, GETADDR_MAX)
  }

  /** The getaddr loop from position `n` on: the shuffled state and the ids picked, after `picked`. */
  function Gather(s: State, n: nat, picked: seq<int>, limit: nat, now: int, rnd: nat -> nat): (State, seq<int>)
    requires Indexed(s)
    decreases |s.random| - n
  {
    if n >= |s.random| || |picked| >= limit then (s, picked) else
      DrawKeeps(s, n, rnd(n));
      var s1 := Draw(s, n, rnd(n));
      Gather(s1, n + 1, picked + Relay(s1, s1.random[n], now), limit, now, rnd)
  }

  /** Bring a random one of the entries from position `n` on to position `n`. */
  function Draw(s: State, n: nat, r: nat): State
    requires Indexed(s) && n < |s.random|
  {
    var p := r % (|s.random| - n) + n;
    SwapKeeps(s, n, p);
    SwapRandom(s, n, p)
  }

  function Relay(s: State, id: int, now: int): seq<int>
    requires id in s.info
  {
    if IsTerrible(s.info[id], now) then [] else [id]
  }

  function GetAddr(s: State, now: int, rnd: nat -> nat): (State, seq<int>)
    requires Indexed(s)
  {
    Gather(s, 0, [], GetAddrLimit(s), now, rnd)
  }

  datatype Op =
    | OpAdd(addr: Address, source: NetAddr, penalty: int, now: int, rnd: nat)
    | OpGood(svc: Service, time: int)
    | OpAttempt(svc: Service, countFailure: bool, time: int)
    | OpConnected(svc: Service, time: int)
    | OpSetServices(svc: Service, services: set<nat>)
    | OpGetAddr(now: int, pick: nat -> nat)

  function Step(env: Env, s: State, op: Op): State
    requires Consistent(env, s)
  {
    match op
    case OpAdd(addr, source, penalty, now, rnd) => Add(env, s, addr, source, penalty, now, rnd)
    case OpGood(svc, time) => Good(env, s, svc, time)
    case OpAttempt(svc, countFailure, time) => Attempt(s, svc, countFailure, time)
    case OpConnected(svc, time) => Connected(s, svc, time)
    case OpSetServices(svc, services) => SetServices(s, svc, services)
    case OpGetAddr(now, pick) => GetAddr(s, now, pick).0
  }

  // ---------------------------------------------------------------- consistency

  ghost predicate IdIndexed(s: State, id: int) {
    && id in s.info && 0 <= id < s.idCount
    && 0 <= s.info[id].randomPos < |s.random| && s.random[s.info[id].randomPos] == id
    && s.info[id].svc.ip in s.ids && s.ids[s.info[id].svc.ip] == id
  }

  ghost predicate PosIndexed(s: State, i: int) {
    0 <= i < |s.random| && s.random[i] in s.info && s.info[s.random[i]].randomPos == i
  }

  ghost predicate AddrIndexed(s: State, a: NetAddr) {
    a in s.ids && s.ids[a] in s.info && s.info[s.ids[a]].svc.ip == a
  }

  /** mapInfo and vRandom index each other (code -14), mapInfo and mapAddr index
      each other (code -5), and every id was handed out by the counter. */
  ghost predicate Indexed(s: State) {
    && s.idCount >= 0
    && (forall id {:trigger IdIndexed(s, id)} :: id in s.info ==> IdIndexed(s, id))
    && (forall i {:trigger PosIndexed(s, i)} :: 0 <= i < |s.random| ==> PosIndexed(s, i))
    && (forall a {:trigger AddrIndexed(s, a)} :: a in s.ids ==> AddrIndexed(s, a))
  }

  ghost function Holders(tab: map<Slot, int>, id: int): set<Slot> {
    set sl | sl in tab && tab[sl] == id
  }

  ghost predicate TriedHashed(env: Env, s: State, sl: Slot) {
    && sl in s.triedTab && s.triedTab[sl] in s.info && s.info[s.triedTab[sl]].inTried
    && sl == TriedSlot(env, s.key, s.info[s.triedTab[sl]].svc)
  }

  ghost predicate NewHashed(env: Env, s: State, sl: Slot) {
    && sl in s.newTab && s.newTab[sl] in s.info && !s.info[s.newTab[sl]].inTried && sl.bucket < NEW_BUCKET_COUNT
    && sl == NewSlotIn(env, s.key, s.info[s.newTab[sl]].svc, sl.bucket)
  }

  /** Every occupied slot is the one its entry's hash dictates (codes -11, -12, -17, -18, -19). */
  ghost predicate Hashed(env: Env, s: State) {
    && (forall sl {:trigger TriedHashed(env, s, sl)} :: sl in s.triedTab ==> TriedHashed(env, s, sl))
    && (forall sl {:trigger NewHashed(env, s, sl)} :: sl in s.newTab ==> NewHashed(env, s, sl))
  }

  ghost predicate IdReferenced(env: Env, s: State, limbo: set<int>, id: int) {
    && id in s.info
    && if s.info[id].inTried then
         && s.info[id].refCount == 0
         && TriedSlot(env, s.key, s.info[id].svc) in s.triedTab
         && s.triedTab[TriedSlot(env, s.key, s.info[id].svc)] == id
       else
         && s.info[id].refCount == |Holders(s.newTab, id)| <= NEW_BUCKETS_PER_ADDRESS
         && (id in limbo <==> s.info[id].refCount == 0)
  }

  /** Tried entries own their slot and no reference (codes -2, -13); a new entry has
      exactly as many references as slots (code -15), between 1 and 8 (codes -3, -4),
      except that entries in `limbo` are between tables and have none. */
  ghost predicate Referenced(env: Env, s: State, limbo: set<int>) {
    forall id {:trigger IdReferenced(env, s, limbo, id)} :: id in s.info ==> IdReferenced(env, s, limbo, id)
  }

  ghost function TriedIds(info: map<int, Info>): set<int> { set id | id in info && info[id].inTried }
  ghost function NewIds(info: map<int, Info>): set<int> { set id | id in info && !info[id].inTried }

  /** The counters (codes -9, -10); `extra` of the entries in limbo are counted already. */
  ghost predicate Counted(s: State, limbo: set<int>, extra: int) {
    s.nTried == |TriedIds(s.info)| && limbo <= NewIds(s.info) && s.nNew == |NewIds(s.info) - limbo| + extra
  }

  ghost predicate Between(env: Env, s: State, limbo: set<int>, extra: int) {
    Indexed(s) && Hashed(env, s) && Referenced(env, s, limbo) && Counted(s, limbo, extra)
  }

  ghost predicate Consistent(env: Env, s: State) {
    Between(env, s, {}, 0)
  }

  /** The time checks (codes -1, -6, -8). */
  ghost predicate Timed(s: State) {
    forall id :: id in s.info ==> TimedInfo(s.info[id])
  }

  // ---------------------------------------------------------------- lemmas

  lemma IndexedUpdate(s: State, t: State, id: int)
    requires Indexed(s) && id in s.info && t.info.Keys == s.info.Keys
    requires t.random == s.random && t.ids == s.ids && t.idCount == s.idCount
    requires forall x :: x in s.info && x != id ==> t.info[x] == s.info[x]
    requires t.info[id].randomPos == s.info[id].randomPos && t.info[id].svc == s.info[id].svc
    ensures Indexed(t)
  {
    forall x | x in t.info ensures IdIndexed(t, x) { assert IdIndexed(s, x); }
    forall i | 0 <= i < |t.random| ensures PosIndexed(t, i) { assert PosIndexed(s, i); }
    forall a | a in t.ids ensures AddrIndexed(t, a) { assert AddrIndexed(s, a); }
  }

  /** Two infos that agree on everything the tables depend on, the place in vRandom apart. */
  ghost predicate SamePlace(i: Info, j: Info) {
    i.svc == j.svc && i.refCount == j.refCount && i.inTried == j.inTried
  }

  /** The table conditions survive changes to fields they do not look at. */
  lemma TablesUpdate(env: Env, s: State, t: State, limbo: set<int>, extra: int)
    requires Hashed(env, s) && Referenced(env, s, limbo) && Counted(s, limbo, extra)
    requires t.triedTab == s.triedTab && t.newTab == s.newTab && t.key == s.key
    requires t.nNew == s.nNew && t.nTried == s.nTried && t.info.Keys == s.info.Keys
    requires forall x :: x in s.info ==> SamePlace(s.info[x], t.info[x])
    ensures Hashed(env, t) && Referenced(env, t, limbo) && Counted(t, limbo, extra)
  {
    forall x | x in t.info ensures t.info[x].inTried == s.info[x].inTried && t.info[x].svc == s.info[x].svc {
      assert SamePlace(s.info[x], t.info[x]);
    }
    forall sl | sl in t.triedTab ensures TriedHashed(env, t, sl) { assert TriedHashed(env, s, sl); }
    forall sl | sl in t.newTab ensures NewHashed(env, t, sl) { assert NewHashed(env, s, sl); }
    forall x | x in t.info ensures IdReferenced(env, t, limbo, x) { assert IdReferenced(env, s, limbo, x); }
    assert TriedIds(s.info) == TriedIds(t.info) && NewIds(s.info) == NewIds(t.info);
  }

  lemma ConsistentUpdate(env: Env, s: State, t: State, id: int)
    requires Consistent(env, s) && id in s.info && id in t.info
    requires t == s.(info := t.info, lastGood := t.lastGood) && t.info == s.info[id := t.info[id]]
    requires SamePlace(s.info[id], t.info[id]) && s.info[id].randomPos == t.info[id].randomPos
    ensures Consistent(env, t)
  {
    assert t.info.Keys == s.info.Keys;
    IndexedUpdate(s, t, id);
    TablesUpdate(env, s, t, {}, 0);
  }

  /** Only the order of vRandom differs. */
  ghost predicate Shuffled(s: State, t: State) {
    && t == s.(info := t.info, random := t.random) && t.info.Keys == s.info.Keys && |t.random| == |s.random|
    && forall x :: x in s.info ==> t.info[x] == s.info[x].(randomPos := t.info[x].randomPos)
  }

  lemma ShuffledTransitive(s: State, s1: State, t: State)
    requires Shuffled(s, s1) && Shuffled(s1, t)
    ensures Shuffled(s, t)
  {
    forall x | x in s.info ensures t.info[x] == s.info[x].(randomPos := t.info[x].randomPos) {
      assert s1.info[x] == s.info[x].(randomPos := s1.info[x].randomPos);
    }
  }

  lemma SwapKeeps(s: State, i: nat, j: nat)
    requires Indexed(s) && i < |s.random| && j < |s.random|
    ensures PosIndexed(s, i) && PosIndexed(s, j) && Indexed(SwapRandom(s, i, j)) && Shuffled(s, SwapRandom(s, i, j))
  {
    assert PosIndexed(s, i) && PosIndexed(s, j);
    var t := SwapRandom(s, i, j);
    if i != j {
      assert t.info.Keys == s.info.Keys;
      forall x | x in t.info ensures IdIndexed(t, x) { assert IdIndexed(s, x); }
      forall k | 0 <= k < |t.random| ensures PosIndexed(t, k) { assert PosIndexed(s, k); }
      forall a | a in t.ids ensures AddrIndexed(t, a) { assert AddrIndexed(s, a); }
    }
  }

  /** Swapped to the back, the entry to delete owns the last place and nothing else points there. */
  lemma DeleteIndexed(s: State, id: int)
    requires Indexed(s) && id in s.info
    ensures Deletable(s, id) && Indexed(Delete(s, id)) && DeletedOnly(s, Delete(s, id), id)
  {
    var last := |s.random| - 1;
    var p := s.info[id].randomPos;
    assert IdIndexed(s, id);
    SwapKeeps(s, p, last);
    var s1 := SwapRandom(s, p, last);
    assert IdIndexed(s1, id) && PosIndexed(s1, last);
    DropLast(s1, Delete(s, id), id);
    DeletedOnlyAfter(s, s1, Delete(s, id), id);
  }

  ghost predicate DeletedOnly(s: State, t: State, id: int) {
    && t == s.(info := t.info, random := t.random, ids := t.ids, nNew := s.nNew - 1)
       && t.info.Keys == s.info.Keys - {id}
    && forall x :: x in t.info ==> t.info[x] == s.info[x].(randomPos := t.info[x].randomPos)
  }

  lemma DeletedOnlyAfter(s: State, s1: State, t: State, id: int)
    requires Shuffled(s, s1) && t.info == s1.info - {id}
             && t == s.(info := t.info, random := t.random, ids := t.ids, nNew := s.nNew - 1)
    ensures DeletedOnly(s, t, id)
  {
    assert t.info.Keys == s.info.Keys - {id};
  }

  lemma DropLast(s: State, t: State, id: int)
    requires Indexed(s) && id in s.info && 0 <= s.info[id].randomPos == |s.random| - 1
    requires t.info == s.info - {id} && t.ids == s.ids - {s.info[id].svc.ip}
    requires t.random == s.random[..|s.random| - 1] && t.idCount == s.idCount
    ensures Indexed(t)
  {
    assert IdIndexed(s, id);
    forall x | x in t.info ensures IdIndexed(t, x) { assert IdIndexed(s, x); }
    forall k | 0 <= k < |t.random| ensures PosIndexed(t, k) { assert PosIndexed(s, k); }
    forall a | a in t.ids ensures AddrIndexed(t, a) { assert AddrIndexed(s, a); }
  }

  lemma IdsSame(info: map<int, Info>, info': map<int, Info>, id: int)
    requires id in info && id in info' && info' == info[id := info'[id]] && info'[id].inTried == info[id].inTried
    ensures info'.Keys == info.Keys && TriedIds(info') == TriedIds(info) && NewIds(info') == NewIds(info)
  {
  }

  lemma IdsWithout(info: map<int, Info>, less: map<int, Info>, id: int)
    requires id in info && !info[id].inTried && less.Keys == info.Keys - {id}
    requires forall x :: x in less ==> less[x].inTried == info[x].inTried
    ensures TriedIds(less) == TriedIds(info) && NewIds(less) == NewIds(info) - {id} && id in NewIds(info)
  {
    forall x | x in info && x != id ensures x in less && less[x].inTried == info[x].inTried { }
  }

  lemma DeleteTables(env: Env, s: State, id: int, limbo: set<int>)
    requires Indexed(s) && Hashed(env, s) && Referenced(env, s, limbo)
    requires id in s.info && id in limbo && !s.info[id].inTried
    ensures Deletable(s, id) && Hashed(env, Delete(s, id)) && Referenced(env, Delete(s, id), limbo - {id})
  {
    DeleteIndexed(s, id);
    var t := Delete(s, id);
    assert IdReferenced(env, s, limbo, id);
    forall sl | sl in t.newTab ensures NewHashed(env, t, sl) {
      assert NewHashed(env, s, sl);
      assert sl !in Holders(s.newTab, id);
    }
    forall sl | sl in t.triedTab ensures TriedHashed(env, t, sl) { assert TriedHashed(env, s, sl); }
    forall x | x in t.info ensures IdReferenced(env, t, limbo - {id}, x) { assert IdReferenced(env, s, limbo, x); }
  }

  lemma DeleteKeeps(env: Env, s: State, id: int, limbo: set<int>, extra: int)
    requires Between(env, s, limbo, extra) && id in limbo
    ensures id in s.info && Deletable(s, id) && Between(env, Delete(s, id), limbo - {id}, extra - 1)
  {
    assert id in NewIds(s.info);
    DeleteIndexed(s, id);
    DeleteTables(env, s, id, limbo);
    var t := Delete(s, id);
    IdsWithout(s.info, t.info, id);
    assert NewIds(t.info) - (limbo - {id}) == NewIds(s.info) - limbo;
  }

  /** How emptying one slot or filling one slot changes who holds what. */
  lemma HoldersChange(tab: map<Slot, int>, slot: Slot, id: int, y: int)
    ensures slot in tab && tab[slot] == id ==>
              Holders(tab - {slot}, id) == Holders(tab, id) - {slot} && slot in Holders(tab, id)
    ensures slot in tab && tab[slot] != id ==> Holders(tab - {slot}, id) == Holders(tab, id)
    ensures slot !in tab ==> Holders(tab[slot := id], id) == Holders(tab, id) + {slot} && slot !in Holders(tab, id)
    ensures slot !in tab && y != id ==> Holders(tab[slot := y], id) == Holders(tab, id)
  {
  }

  lemma UnplaceKeeps(env: Env, s: State, slot: Slot, limbo: set<int>, extra: int)
    requires Between(env, s, limbo, extra) && slot in s.newTab
    ensures NewHashed(env, s, slot)
    ensures var d := s.newTab[slot]; var t := Unplace(s, slot);
            && d !in limbo && t.info.Keys == s.info.Keys && s.info[d].refCount > 0
            && (forall x :: x in s.info && x != d ==> t.info[x] == s.info[x])
            && (if t.info[d].refCount == 0 then Between(env, t, limbo + {d}, extra + 1)
                else Between(env, t, limbo, extra))
  {
    assert NewHashed(env, s, slot);
    var d := s.newTab[slot];
    var t := Unplace(s, slot);
    IdsSame(s.info, t.info, d);
    IndexedUpdate(s, t, d);
    assert IdReferenced(env, s, limbo, d);
    HoldersChange(s.newTab, slot, d, d);
    var limbo' := if t.info[d].refCount == 0 then limbo + {d} else limbo;
    UnplaceTables(env, s, slot, limbo, limbo');
    assert d in NewIds(s.info) - limbo;
    assert NewIds(s.info) - (limbo + {d}) == (NewIds(s.info) - limbo) - {d};
  }

  lemma UnplaceTables(env: Env, s: State, slot: Slot, limbo: set<int>, limbo': set<int>)
    requires Hashed(env, s) && Referenced(env, s, limbo) && slot in s.newTab && s.newTab[slot] in s.info
    requires var d := s.newTab[slot];
             limbo' == if s.info[d].refCount == 1 then limbo + {d} else limbo
    ensures Hashed(env, Unplace(s, slot)) && Referenced(env, Unplace(s, slot), limbo')
  {
    var d := s.newTab[slot];
    var t := Unplace(s, slot);
    assert NewHashed(env, s, slot);
    forall sl | sl in t.newTab ensures NewHashed(env, t, sl) { assert NewHashed(env, s, sl); }
    forall sl | sl in t.triedTab ensures TriedHashed(env, t, sl) { assert TriedHashed(env, s, sl); }
    forall x | x in t.info ensures IdReferenced(env, t, limbo', x) {
      assert IdReferenced(env, s, limbo, x);
      HoldersChange(s.newTab, slot, x, d);
    }
  }

  /** What ClearNew leaves alone: everything but one slot, one entry and the order of vRandom. */
  ghost predicate Cleared(s: State, t: State, slot: Slot) {
    && t.newTab == s.newTab - {slot} && t.triedTab == s.triedTab && t.nTried == s.nTried
    && t.key == s.key && t.idCount == s.idCount && t.lastGood == s.lastGood
    && (forall x :: x in t.info ==>
          x in s.info && t.info[x] == s.info[x].(randomPos := t.info[x].randomPos, refCount := t.info[x].refCount))
    && (forall x :: x in s.info && (slot in s.newTab ==> s.newTab[slot] != x) ==>
          x in t.info && t.info[x] == s.info[x].(randomPos := t.info[x].randomPos))
  }

  lemma ClearNewKeeps(env: Env, s: State, slot: Slot, limbo: set<int>, extra: int)
    requires Between(env, s, limbo, extra)
    ensures Clearable(s, slot) && Between(env, ClearNew(s, slot), limbo, extra)
    ensures Cleared(s, ClearNew(s, slot), slot)
    ensures slot in s.newTab ==> s.newTab[slot] !in limbo
  {
    if slot in s.newTab {
      var d := s.newTab[slot];
      UnplaceKeeps(env, s, slot, limbo, extra);
      var s1 := Unplace(s, slot);
      if s1.info[d].refCount == 0 {
        DeleteIndexed(s1, d);
        DeleteKeeps(env, s1, d, limbo + {d}, extra + 1);
        assert limbo + {d} - {d} == limbo;
      }
    }
  }

  lemma PlaceTables(env: Env, s: State, id: int, slot: Slot, limbo: set<int>)
    requires Hashed(env, s) && Referenced(env, s, limbo) && id in s.info && !s.info[id].inTried
    requires slot !in s.newTab && slot.bucket < NEW_BUCKET_COUNT
             && slot == NewSlotIn(env, s.key, s.info[id].svc, slot.bucket)
    requires s.info[id].refCount < NEW_BUCKETS_PER_ADDRESS
    ensures Hashed(env, PlaceNew(s, id, slot)) && Referenced(env, PlaceNew(s, id, slot), limbo - {id})
  {
    var t := PlaceNew(s, id, slot);
    forall sl | sl in t.newTab ensures NewHashed(env, t, sl) { assert sl != slot ==> NewHashed(env, s, sl); }
    forall sl | sl in t.triedTab ensures TriedHashed(env, t, sl) { assert TriedHashed(env, s, sl); }
    forall x | x in t.info ensures IdReferenced(env, t, limbo - {id}, x) {
      assert IdReferenced(env, s, limbo, x);
      HoldersChange(s.newTab, slot, x, id);
    }
  }

  lemma PlaceKeeps(env: Env, s: State, id: int, slot: Slot, limbo: set<int>, extra: int)
    requires Between(env, s, limbo, extra) && id in s.info && !s.info[id].inTried
    requires slot !in s.newTab && slot.bucket < NEW_BUCKET_COUNT
             && slot == NewSlotIn(env, s.key, s.info[id].svc, slot.bucket)
    requires s.info[id].refCount < NEW_BUCKETS_PER_ADDRESS
    ensures Between(env, PlaceNew(s, id, slot), limbo - {id}, if id in limbo then extra - 1 else extra)
  {
    var t := PlaceNew(s, id, slot);
    IdsSame(s.info, t.info, id);
    IndexedUpdate(s, t, id);
    PlaceTables(env, s, id, slot, limbo);
    if id in limbo {
      assert NewIds(s.info) - (limbo - {id}) == (NewIds(s.info) - limbo) + {id};
    } else {
      assert limbo - {id} == limbo;
    }
  }

  lemma HoldersAreHashHolders(env: Env, s: State, id: int)
    requires Hashed(env, s) && id in s.info
    ensures HashHolders(env, s, id, NEW_BUCKET_COUNT) == Holders(s.newTab, id)
  {
    forall sl | sl in Holders(s.newTab, id) ensures sl in HashHolders(env, s, id, NEW_BUCKET_COUNT) {
      assert NewHashed(env, s, sl);
      assert sl == NewSlotIn(env, s.key, s.info[id].svc, sl.bucket);
    }
  }

  lemma WithdrawKeeps(env: Env, s: State, id: int)
    requires Consistent(env, s) && id in s.info && !s.info[id].inTried
    ensures var t := Withdraw(env, s, id, NEW_BUCKET_COUNT).(nNew := s.nNew - 1);
            Between(env, t, {id}, 0) && t.info[id] == s.info[id].(refCount := 0)
    ensures var t := Withdraw(env, s, id, NEW_BUCKET_COUNT);
            t.triedTab == s.triedTab && t.info == s.info[id := s.info[id].(refCount := 0)]
  {
    HoldersAreHashHolders(env, s, id);
    var h := Holders(s.newTab, id);
    var t := Withdraw(env, s, id, NEW_BUCKET_COUNT).(nNew := s.nNew - 1);
    assert IdReferenced(env, s, {}, id);
    IdsSame(s.info, t.info, id);
    IndexedUpdate(s, t, id);
    forall sl | sl in t.newTab ensures NewHashed(env, t, sl) { assert NewHashed(env, s, sl); }
    forall sl | sl in t.triedTab ensures TriedHashed(env, t, sl) { assert TriedHashed(env, s, sl); }
    forall x | x in t.info ensures IdReferenced(env, t, {id}, x) {
      assert IdReferenced(env, s, {}, x);
      assert Holders(t.newTab, x) == if x == id then {} else Holders(s.newTab, x);
    }
    assert NewIds(s.info) - {} == NewIds(s.info);
    assert id in NewIds(s.info);
  }

  lemma UntryKeeps(env: Env, s: State, slot: Slot, limbo: set<int>, extra: int)
    requires Between(env, s, limbo, extra) && slot in s.triedTab
    ensures TriedHashed(env, s, slot)
    ensures var e := s.triedTab[slot];
            && e !in limbo && s.info[e].inTried && Between(env, Untry(s, slot), limbo + {e}, extra)
            && Untry(s, slot).info.Keys == s.info.Keys
  {
    assert TriedHashed(env, s, slot);
    var e := s.triedTab[slot];
    var t := Untry(s, slot);
    assert t.info.Keys == s.info.Keys;
    IndexedUpdate(s, t, e);
    assert e !in NewIds(s.info);
    UntryTables(env, s, slot, limbo);
    assert TriedIds(t.info) == TriedIds(s.info) - {e};
    assert NewIds(t.info) == NewIds(s.info) + {e};
    assert NewIds(t.info) - (limbo + {e}) == NewIds(s.info) - limbo;
  }

  lemma UntryTables(env: Env, s: State, slot: Slot, limbo: set<int>)
    requires Hashed(env, s) && Referenced(env, s, limbo) && TriedHashed(env, s, slot) && limbo <= NewIds(s.info)
    ensures Hashed(env, Untry(s, slot)) && Referenced(env, Untry(s, slot), limbo + {s.triedTab[slot]})
  {
    var e := s.triedTab[slot];
    var t := Untry(s, slot);
    assert IdReferenced(env, s, limbo, e);
    forall sl | sl in t.newTab ensures NewHashed(env, t, sl) { assert NewHashed(env, s, sl); }
    forall sl | sl in t.triedTab ensures TriedHashed(env, t, sl) { assert TriedHashed(env, s, sl); }
    forall sl | sl in s.newTab ensures s.newTab[sl] != e { assert NewHashed(env, s, sl); }
    assert Holders(s.newTab, e) == {};
    forall x | x in t.info ensures IdReferenced(env, t, limbo + {e}, x) { assert IdReferenced(env, s, limbo, x); }
  }

  lemma EnterKeeps(env: Env, s: State, e: int, slot: Slot, limbo: set<int>)
    requires Between(env, s, limbo, 0) && e in limbo && e in s.info
    requires slot !in s.newTab && slot.bucket < NEW_BUCKET_COUNT
             && slot == NewSlotIn(env, s.key, s.info[e].svc, slot.bucket)
    ensures Between(env, Enter(s, e, slot), limbo - {e}, 0)
  {
    assert e in NewIds(s.info);
    assert IdReferenced(env, s, limbo, e);
    PlaceKeeps(env, s, e, slot, limbo, 0);
    var u := PlaceNew(s, e, slot);
    var t := Enter(s, e, slot);
    assert t == u.(nNew := s.nNew + 1);
    BetweenNew(env, u, t, limbo - {e}, -1);
  }

  lemma BetweenNew(env: Env, u: State, t: State, limbo: set<int>, extra: int)
    requires Between(env, u, limbo, extra) && t == u.(nNew := t.nNew)
    ensures Between(env, t, limbo, extra + t.nNew - u.nNew)
  {
    forall x | x in t.info ensures IdIndexed(t, x) { assert IdIndexed(u, x); }
    forall i | 0 <= i < |t.random| ensures PosIndexed(t, i) { assert PosIndexed(u, i); }
    forall a | a in t.ids ensures AddrIndexed(t, a) { assert AddrIndexed(u, a); }
    forall sl | sl in t.newTab ensures NewHashed(env, t, sl) { assert NewHashed(env, u, sl); }
    forall sl | sl in t.triedTab ensures TriedHashed(env, t, sl) { assert TriedHashed(env, u, sl); }
    forall x | x in t.info ensures IdReferenced(env, t, limbo, x) { assert IdReferenced(env, u, limbo, x); }
  }

  lemma EvictKeeps(env: Env, s: State, slot: Slot, limbo: set<int>)
    requires Between(env, s, limbo, 0) && slot in s.triedTab
    ensures Evictable(env, s, slot)
    ensures var t := Evict(env, s, slot);
            && Between(env, t, limbo, 0) && t.triedTab == s.triedTab - {slot} && t.key == s.key
               && t.lastGood == s.lastGood
            && (forall x :: x in limbo && x in s.info
                  ==> x in t.info && t.info[x] == s.info[x].(randomPos := t.info[x].randomPos))
  {
    var e := s.triedTab[slot];
    UntryKeeps(env, s, slot, limbo, 0);
    var s1 := Untry(s, slot);
    var nslot := NewSlot(env, s.key, s.info[e].svc, s.info[e].source);
    ClearNewKeeps(env, s1, nslot, limbo + {e}, 0);
    var s2 := ClearNew(s1, nslot);
    assert e in s2.info && s2.info[e].svc == s1.info[e].svc;
    EnterKeeps(env, s2, e, nslot, limbo + {e});
    assert limbo + {e} - {e} == limbo;
    assert Evict(env, s, slot) == Enter(s2, e, nslot);
  }

  lemma SetTriedKeeps(env: Env, s: State, id: int)
    requires Between(env, s, {id}, 0) && id in s.info && TriedSlot(env, s.key, s.info[id].svc) !in s.triedTab
    ensures Consistent(env, SetTried(s, id, TriedSlot(env, s.key, s.info[id].svc)))
  {
    var slot := TriedSlot(env, s.key, s.info[id].svc);
    var t := SetTried(s, id, slot);
    hide Hashed, Referenced;
    assert t.info.Keys == s.info.Keys;
    IndexedUpdate(s, t, id);
    assert id in NewIds(s.info);
    SetTriedTables(env, s, id);
    assert TriedIds(t.info) == TriedIds(s.info) + {id};
    assert NewIds(t.info) - {} == NewIds(s.info) - {id};
  }

  lemma SetTriedTables(env: Env, s: State, id: int)
    requires Hashed(env, s) && Referenced(env, s, {id}) && id in NewIds(s.info)
             && TriedSlot(env, s.key, s.info[id].svc) !in s.triedTab
    ensures var t := SetTried(s, id, TriedSlot(env, s.key, s.info[id].svc)); Hashed(env, t) && Referenced(env, t, {})
  {
    hide TriedSlot, NewSlotIn;
    var slot := TriedSlot(env, s.key, s.info[id].svc);
    var t := SetTried(s, id, slot);
    assert IdReferenced(env, s, {id}, id);
    forall sl | sl in t.newTab ensures NewHashed(env, t, sl) {
      assert NewHashed(env, s, sl);
      assert sl !in Holders(s.newTab, id);
    }
    forall sl | sl in t.triedTab ensures TriedHashed(env, t, sl) { assert sl != slot ==> TriedHashed(env, s, sl); }
    forall x | x in t.info ensures IdReferenced(env, t, {}, x) { assert IdReferenced(env, s, {id}, x); }
  }

  lemma MakeTriedKeeps(env: Env, s: State, id: int)
    requires Consistent(env, s) && id in s.info && !s.info[id].inTried
    ensures var t := MakeTried(env, s, id);
            && Consistent(env, t) && id in t.info && t.lastGood == s.lastGood
            && t.info[id] == s.info[id].(refCount := 0, inTried := true, randomPos := t.info[id].randomPos)
  {
    WithdrawKeeps(env, s, id);
    var s1 := Withdraw(env, s, id, NEW_BUCKET_COUNT).(nNew := s.nNew - 1);
    var slot := TriedSlot(env, s.key, s.info[id].svc);
    if slot in s1.triedTab {
      EvictKeeps(env, s1, slot, {id});
      SetTriedKeeps(env, Evict(env, s1, slot), id);
    } else {
      SetTriedKeeps(env, s1, id);
    }
  }

  lemma AdmitIndexed(s: State, addr: Address, source: NetAddr, penalty: int)
    requires Indexed(s) && Lookup(s, addr.svc.ip).None?
    ensures var t := Admit(s, addr, source, penalty);
            Indexed(t) && t.info.Keys == s.info.Keys + {s.idCount} && s.idCount !in s.info
  {
    var t := Admit(s, addr, source, penalty);
    var n := s.idCount;
    assert n in s.info ==> IdIndexed(s, n);
    assert addr.svc.ip in s.ids ==> AddrIndexed(s, addr.svc.ip);
    assert t.info.Keys == s.info.Keys + {n};
    forall x | x in t.info ensures IdIndexed(t, x) { assert x != n ==> IdIndexed(s, x); }
    forall i | 0 <= i < |t.random| ensures PosIndexed(t, i) { assert i < |s.random| ==> PosIndexed(s, i); }
    forall a | a in t.ids ensures AddrIndexed(t, a) { assert a != addr.svc.ip ==> AddrIndexed(s, a); }
  }

  lemma AdmitTables(env: Env, s: State, t: State, n: int)
    requires Hashed(env, s) && Referenced(env, s, {}) && n !in s.info
    requires t.info.Keys == s.info.Keys + {n} && forall x :: x in s.info ==> t.info[x] == s.info[x]
    requires t.newTab == s.newTab && t.triedTab == s.triedTab && t.key == s.key
    requires t.info[n].refCount == 0 && !t.info[n].inTried
    ensures Hashed(env, t) && Referenced(env, t, {n})
  {
    forall sl | sl in t.newTab ensures NewHashed(env, t, sl) && t.newTab[sl] != n {
      assert NewHashed(env, s, sl);
      var x := s.newTab[sl];
      assert x in s.info && t.info[x] == s.info[x];
    }
    forall sl | sl in t.triedTab ensures TriedHashed(env, t, sl) {
      assert TriedHashed(env, s, sl);
      var x := s.triedTab[sl];
      assert x in s.info && t.info[x] == s.info[x];
    }
    assert Holders(t.newTab, n) == {};
    forall x | x in t.info ensures IdReferenced(env, t, {n}, x) { assert x != n ==> IdReferenced(env, s, {}, x); }
  }

  lemma AdmitKeeps(env: Env, s: State, addr: Address, source: NetAddr, penalty: int)
    requires Consistent(env, s) && Lookup(s, addr.svc.ip).None?
    ensures var t := Admit(s, addr, source, penalty);
            Between(env, t, {s.idCount}, 1) && s.idCount in t.info
  {
    var t := Admit(s, addr, source, penalty);
    var n := s.idCount;
    AdmitIndexed(s, addr, source, penalty);
    AdmitTables(env, s, t, n);
    IdsWithout(t.info, s.info, n);
    assert NewIds(t.info) - {n} == NewIds(s.info) - {};
  }

  lemma SettleKeeps(env: Env, s: State, id: int, source: NetAddr, now: int)
    requires id in s.info && !s.info[id].inTried && s.info[id].refCount < NEW_BUCKETS_PER_ADDRESS
    requires if s.info[id].refCount == 0 then Between(env, s, {id}, 1) else Consistent(env, s)
    ensures Settleable(env, s, id, source) && Consistent(env, Settle(env, s, id, source, now))
  {
    var limbo, extra := if s.info[id].refCount == 0 then {id} else {}, if s.info[id].refCount == 0 then 1 else 0;
    var slot := NewSlot(env, s.key, s.info[id].svc, source);
    ClearNewKeeps(env, s, slot, limbo, extra);
    DeleteIndexed(s, id);
    if slot in s.newTab && s.newTab[slot] == id {
    } else if Replaceable(s, id, slot, now) {
      PlaceKeeps(env, ClearNew(s, slot), id, slot, limbo, extra);
      assert limbo - {id} == {};
    } else if s.info[id].refCount == 0 {
      DeleteKeeps(env, s, id, {id}, 1);
      assert {id} - {id} == {};
    }
  }

  lemma RoomLeft(env: Env, s: State, id: int)
    requires Consistent(env, s) && id in s.info && !s.info[id].inTried && s.info[id].refCount != NEW_BUCKETS_PER_ADDRESS
    ensures 0 < s.info[id].refCount < NEW_BUCKETS_PER_ADDRESS
  {
    assert IdReferenced(env, s, {}, id);
  }

  lemma AddKeeps(env: Env, s: State, addr: Address, source: NetAddr, timePenalty: int, now: int, rnd: nat)
    requires Consistent(env, s)
    ensures Consistent(env, Add(env, s, addr, source, timePenalty, now, rnd))
  {
    if env.routable(addr.svc.ip) {
      var penalty := if addr.svc.ip == source then 0 else timePenalty;
      match Lookup(s, addr.svc.ip)
      case Some(id) =>
        var i := Refresh(s.info[id], addr, penalty, now);
        var s1 := s.(info := s.info[id := i]);
        ConsistentUpdate(env, s, s1, id);
        if WantsAnotherSlot(i, addr, rnd) {
          RoomLeft(env, s1, id);
          SettleKeeps(env, s1, id, source, now);
        }
      case None =>
        AdmitKeeps(env, s, addr, source, penalty);
        SettleKeeps(env, Admit(s, addr, source, penalty), s.idCount, source, now);
    }
  }

  lemma GoodKeeps(env: Env, s: State, svc: Service, time: int)
    requires Consistent(env, s)
    ensures Consistent(env, Good(env, s, svc, time))
  {
    hide Indexed, Hashed, Referenced, Counted, MakeTried;
    match Lookup(s, svc.ip)
    case None => assert Consistent(env, s.(lastGood := time)) by { LastGoodKeeps(env, s, time); }
    case Some(id) =>
      LastGoodKeeps(env, s, time);
      if s.info[id].svc == svc {
        var s1 := Touch(s, id, time);
        ConsistentUpdate(env, s, s1, id);
        if !s.info[id].inTried { MakeTriedKeeps(env, s1, id); }
      }
  }

  lemma LastGoodKeeps(env: Env, s: State, time: int)
    requires Consistent(env, s)
    ensures Consistent(env, s.(lastGood := time))
  {
    var t := s.(lastGood := time);
    forall x | x in t.info ensures IdIndexed(t, x) { assert IdIndexed(s, x); }
    forall i | 0 <= i < |t.random| ensures PosIndexed(t, i) { assert PosIndexed(s, i); }
    forall a | a in t.ids ensures AddrIndexed(t, a) { assert AddrIndexed(s, a); }
    TablesUpdate(env, s, t, {}, 0);
  }

  /** The entries of `q` worth relaying, in order. */
  ghost function Relayable(info: map<int, Info>, q: seq<int>, now: int): seq<int> {
    if q == [] then [] else
      var last := q[|q| - 1];
      Relayable(info, q[..|q| - 1], now) + if last in info && !IsTerrible(info[last], now) then [last] else []
  }

  lemma ShuffleKeeps(env: Env, s: State, t: State)
    requires Consistent(env, s) && Shuffled(s, t) && Indexed(t)
    ensures Consistent(env, t)
  {
    TablesUpdate(env, s, t, {}, 0);
  }

  lemma DrawKeeps(s: State, n: nat, r: nat)
    requires Indexed(s) && n < |s.random|
    ensures var t := Draw(s, n, r);
            && Indexed(t) && Shuffled(s, t) && t.random[..n] == s.random[..n]
            && t.random[n] in t.info
  {
    var p := r % (|s.random| - n) + n;
    SwapKeeps(s, n, p);
    assert PosIndexed(SwapRandom(s, n, p), n);
  }

  lemma {:induction false} GatherShuffles(s: State, n: nat, picked: seq<int>, limit: nat, now: int, rnd: nat -> nat)
    requires Indexed(s)
    ensures var t := Gather(s, n, picked, limit, now, rnd).0; Indexed(t) && Shuffled(s, t)
    decreases |s.random| - n
  {
    if n < |s.random| && |picked| < limit {
      DrawKeeps(s, n, rnd(n));
      var s1 := Draw(s, n, rnd(n));
      var picked1 := picked + Relay(s1, s1.random[n], now);
      GatherShuffles(s1, n + 1, picked1, limit, now, rnd);
      ShuffledTransitive(s, s1, Gather(s1, n + 1, picked1, limit, now, rnd).0);
    }
  }

  lemma {:induction false} RelayableShuffled(info: map<int, Info>, info': map<int, Info>, q: seq<int>, now: int)
    requires info'.Keys == info.Keys && forall x :: x in info ==> info'[x] == info[x].(randomPos := info'[x].randomPos)
    ensures Relayable(info', q, now) == Relayable(info, q, now)
  {
    if q != [] {
      RelayableShuffled(info, info', q[..|q| - 1], now);
      var last := q[|q| - 1];
      assert last in info' ==> info'[last] == info[last].(randomPos := info'[last].randomPos);
    }
  }

  /** What it picks is the relayable part of a prefix of the shuffled vector: the whole of it unless the limit was
      reached. */
  lemma {:induction false} GatherPicks(s: State, n: nat, picked: seq<int>, limit: nat, now: int, rnd: nat -> nat)
    returns (m: nat)
    requires Indexed(s) && n <= |s.random| && |picked| <= limit && picked == Relayable(s.info, s.random[..n], now)
    ensures var (t, ids) := Gather(s, n, picked, limit, now, rnd);
            && |t.random| == |s.random| && n <= m <= |s.random| && ids == Relayable(t.info, t.random[..m], now)
            && |ids| <= limit && (|ids| == limit || m == |s.random|)
    decreases |s.random| - n
  {
    if n >= |s.random| || |picked| >= limit {
      m := n;
    } else {
      DrawKeeps(s, n, rnd(n));
      var s1 := Draw(s, n, rnd(n));
      assert s1.random[..n + 1][..n] == s.random[..n];
      RelayableShuffled(s.info, s1.info, s.random[..n], now);
      m := GatherPicks(s1, n + 1, picked + Relay(s1, s1.random[n], now), limit, now, rnd);
    }
  }

  ghost predicate Distinct(ids: seq<int>) {
    forall i, j :: 0 <= i < j < |ids| ==> ids[i] != ids[j]
  }

  lemma {:induction false} RelayableProperties(info: map<int, Info>, q: seq<int>, now: int)
    requires Distinct(q)
    ensures var ids := Relayable(info, q, now);
            Distinct(ids) && forall x :: x in ids <==> x in q && x in info && !IsTerrible(info[x], now)
  {
    if q != [] { RelayableProperties(info, q[..|q| - 1], now); }
  }

  /** A getaddr reply holds distinct entries of good quality, at most 23% of all and at most 2500,
      and every good entry when it stays below that limit; the tables keep their consistency. */
  lemma GetAddrReply(env: Env, s: State, now: int, rnd: nat -> nat)
    requires Consistent(env, s)
    ensures var (t, ids) := GetAddr(s, now, rnd);
            && Consistent(env, t) && Shuffled(s, t)
            && |ids| <= 2500 && 100 * |ids| <= 23 * |s.random| && Distinct(ids)
            && (forall x :: x in ids ==> x in s.info && WorthKeeping(s.info[x], now))
            && (|ids| == 2500 || 100 * (|ids| + 1) > 23 * |s.random|
                || forall x :: x in s.info && WorthKeeping(s.info[x], now) ==> x in ids)
  {
    hide IsTerrible, WorthKeeping;
    forall i ensures IsTerrible(i, now) <==> !WorthKeeping(i, now) { TerribleIff(i, now); }
    var limit := GetAddrLimit(s);
    var (t, ids) := GetAddr(s, now, rnd);
    GatherShuffles(s, 0, [], limit, now, rnd);
    ShuffleKeeps(env, s, t);
    assert s.random[..0] == [];
    var m := GatherPicks(s, 0, [], limit, now, rnd);
    RelayableShuffled(s.info, t.info, t.random[..m], now);
    forall i, j | 0 <= i < j < |t.random| ensures t.random[i] != t.random[j] {
      assert PosIndexed(t, i) && PosIndexed(t, j);
    }
    RelayableProperties(s.info, t.random[..m], now);
    if |ids| != limit {
      forall x | x in s.info && !IsTerrible(s.info[x], now) ensures x in ids { assert IdIndexed(t, x); }
    }
  }

  lemma StepKeeps(env: Env, s: State, op: Op)
    requires Consistent(env, s)
    ensures Consistent(env, Step(env, s, op))
  {
    var t := Step(env, s, op);
    match op
    case OpAdd(addr, source, penalty, now, rnd) => AddKeeps(env, s, addr, source, penalty, now, rnd);
    case OpGood(svc, time) => GoodKeeps(env, s, svc, time);
    case OpGetAddr(now, pick) => GetAddrReply(env, s, now, pick);
    case _ =>
      match Lookup(s, op.svc.ip)
      case None =>
      case Some(id) => if t != s { ConsistentUpdate(env, s, t, id); }
  }

  lemma ClearNewKey(s: State, slot: Slot)
    requires Clearable(s, slot)
    ensures ClearNew(s, slot).key == s.key
  {
  }

  lemma SettleKey(env: Env, s: State, id: int, source: NetAddr, now: int)
    requires Settleable(env, s, id, source)
    ensures Settle(env, s, id, source, now).key == s.key
  {
    hide ClearNew;
    ClearNewKey(s, NewSlot(env, s.key, s.info[id].svc, source));
  }

  lemma EvictKey(env: Env, s: State, slot: Slot)
    requires Evictable(env, s, slot)
    ensures Evict(env, s, slot).key == s.key
  {
    hide ClearNew;
    var e := s.triedTab[slot];
    ClearNewKey(Untry(s, slot), NewSlot(env, s.key, s.info[e].svc, s.info[e].source));
  }

  lemma MakeTriedKey(env: Env, s: State, id: int)
    requires Consistent(env, s) && id in s.info && !s.info[id].inTried
    ensures MakeTried(env, s, id).key == s.key
  {
    hide Evict, HashHolders, Consistent, Evictable;
    var s1 := Withdraw(env, s, id, NEW_BUCKET_COUNT).(nNew := s.nNew - 1);
    var slot := TriedSlot(env, s.key, s.info[id].svc);
    WithdrawKeeps(env, s, id);
    if slot in s1.triedTab {
      EvictKeeps(env, s1, slot, {id});
      EvictKey(env, s1, slot);
    }
  }

  /** No operation changes the key, so the last check of `Check_` (code -16) is one on the key of the new manager. */
  lemma StepKeepsKey(env: Env, s: State, op: Op)
    requires Consistent(env, s)
    ensures Step(env, s, op).key == s.key
  {
    hide Add, Good, GetAddr, Consistent;
    match op
    case OpAdd(addr, source, penalty, now, rnd) => AddKey(env, s, addr, source, penalty, now, rnd);
    case OpGood(svc, time) => GoodKey(env, s, svc, time);
    case OpGetAddr(now, pick) => GetAddrReply(env, s, now, pick);
    case _ =>
  }

  lemma GoodKey(env: Env, s: State, svc: Service, time: int)
    requires Consistent(env, s)
    ensures Good(env, s, svc, time).key == s.key
  {
    hide MakeTried, Indexed, Hashed, Referenced, Counted;
    match Lookup(s, svc.ip)
    case None =>
    case Some(id) =>
      var s1 := Touch(s, id, time);
      ConsistentUpdate(env, s, s1, id);
      if !s.info[id].inTried { MakeTriedKey(env, s1, id); }
  }

  lemma AddKey(env: Env, s: State, addr: Address, source: NetAddr, timePenalty: int, now: int, rnd: nat)
    requires Consistent(env, s)
    ensures Add(env, s, addr, source, timePenalty, now, rnd).key == s.key
  {
    hide Settle, Settleable, Indexed, Hashed, Referenced, Counted;
    if env.routable(addr.svc.ip) {
      var penalty := if addr.svc.ip == source then 0 else timePenalty;
      match Lookup(s, addr.svc.ip)
      case Some(id) =>
        var i := Refresh(s.info[id], addr, penalty, now);
        var s1 := s.(info := s.info[id := i]);
        ConsistentUpdate(env, s, s1, id);
        if WantsAnotherSlot(i, addr, rnd) {
          RoomLeft(env, s1, id);
          SettleKeeps(env, s1, id, source, now);
          SettleKey(env, s1, id, source, now);
        }
      case None =>
        AdmitKeeps(env, s, addr, source, penalty);
        SettleKeeps(env, Admit(s, addr, source, penalty), s.idCount, source, now);
        SettleKey(env, Admit(s, addr, source, penalty), s.idCount, source, now);
    }
  }

  /** What no move between new slots touches. */
  ghost predicate RecordKept(s: State, t: State, x: int) {
    && x in s.info && x in t.info
    && t.info[x] == s.info[x].(time := t.info[x].time, services := t.info[x].services,
       randomPos := t.info[x].randomPos, refCount := t.info[x].refCount)
  }

  /** Every entry of `t` is one of `s` with its history intact, and only the entries in `lost` are gone. */
  ghost predicate KeptBut(s: State, t: State, lost: set<int>) {
    && (forall x {:trigger RecordKept(s, t, x)} :: x in t.info ==> RecordKept(s, t, x))
    && (forall x {:trigger RecordKept(s, t, x)} :: x in s.info && x !in lost ==> RecordKept(s, t, x))
  }

  ghost function HolderOf(tab: map<Slot, int>, slot: Slot): set<int> {
    if slot in tab then {tab[slot]} else {}
  }

  lemma ClearNewFrame(env: Env, s: State, slot: Slot, limbo: set<int>, extra: int)
    requires Between(env, s, limbo, extra)
    ensures Clearable(s, slot) && KeptBut(s, ClearNew(s, slot), HolderOf(s.newTab, slot))
  {
    ClearNewKeeps(env, s, slot, limbo, extra);
    var t := ClearNew(s, slot);
    forall x | x in t.info ensures RecordKept(s, t, x) { }
    forall x | x in s.info && x !in HolderOf(s.newTab, slot) ensures RecordKept(s, t, x) { }
  }

  lemma SettleFrame(env: Env, s: State, id: int, source: NetAddr, now: int, limbo: set<int>, extra: int)
    requires Between(env, s, limbo, extra) && Settleable(env, s, id, source)
    ensures var slot := NewSlot(env, s.key, s.info[id].svc, source);
            KeptBut(s, Settle(env, s, id, source, now), HolderOf(s.newTab, slot) + {id})
    ensures s.info[id].refCount > 0 ==> id in Settle(env, s, id, source, now).info
  {
    var slot := NewSlot(env, s.key, s.info[id].svc, source);
    var t := Settle(env, s, id, source, now);
    if slot in s.newTab && s.newTab[slot] == id {
    } else if Replaceable(s, id, slot, now) {
      ClearNewFrame(env, s, slot, limbo, extra);
      var c := ClearNew(s, slot);
      forall x | x in t.info ensures RecordKept(s, t, x) { assert RecordKept(s, c, x); }
      forall x | x in s.info && x !in HolderOf(s.newTab, slot) ensures RecordKept(s, t, x) {
        assert RecordKept(s, c, x);
      }
    } else if s.info[id].refCount == 0 {
      DeleteIndexed(s, id);
    }
  }

  lemma AddKnownFrame(env: Env, s: State, id: int, i: Info, source: NetAddr, now: int)
    requires Consistent(env, s) && id in s.info && !i.inTried && i.refCount != NEW_BUCKETS_PER_ADDRESS
    requires i == s.info[id].(time := i.time, services := i.services)
    ensures var s1 := s.(info := s.info[id := i]);
            && Settleable(env, s1, id, source)
            && AddKept(s, Settle(env, s1, id, source, now), NewSlot(env, s.key, i.svc, source))
  {
    var s1 := s.(info := s.info[id := i]);
    ConsistentUpdate(env, s, s1, id);
    RoomLeft(env, s1, id);
    SettleKeeps(env, s1, id, source, now);
    SettleFrame(env, s1, id, source, now, {}, 0);
    KeptAround(s, s1, Settle(env, s1, id, source, now), id, NewSlot(env, s.key, s.info[id].svc, source));
  }

  lemma AddFreshFrame(env: Env, s: State, addr: Address, source: NetAddr, penalty: int, now: int)
    requires Consistent(env, s) && Lookup(s, addr.svc.ip).None?
    ensures var s1 := Admit(s, addr, source, penalty);
            Settleable(env, s1, s.idCount, source)
                && AddKept(s, Settle(env, s1, s.idCount, source, now), NewSlot(env, s.key, addr.svc, source))
  {
    AdmitIndexed(s, addr, source, penalty);
    AdmitKeeps(env, s, addr, source, penalty);
    var s1 := Admit(s, addr, source, penalty);
    SettleKeeps(env, s1, s.idCount, source, now);
    SettleFrame(env, s1, s.idCount, source, now, {s.idCount}, 1);
    KeptAround(s, s1, Settle(env, s1, s.idCount, source, now), s.idCount, NewSlot(env, s.key, addr.svc, source));
  }

  /** The slot in which Add_ wants the address: that of the entry if there is one, which may have another port. */
  function AddSlot(env: Env, s: State, addr: Address, source: NetAddr): Slot {
    match Lookup(s, addr.svc.ip)
    case Some(id) => NewSlot(env, s.key, s.info[id].svc, source)
    case None => NewSlot(env, s.key, addr.svc, source)
  }

  /** Adding an address rewrites nobody's history, and the only entry it can drive out
      is the holder of that slot. */
  lemma AddFrame(env: Env, s: State, addr: Address, source: NetAddr, timePenalty: int, now: int, rnd: nat)
    requires Consistent(env, s)
    ensures AddKept(s, Add(env, s, addr, source, timePenalty, now, rnd), AddSlot(env, s, addr, source))
  {
    if env.routable(addr.svc.ip) {
      var penalty := if addr.svc.ip == source then 0 else timePenalty;
      match Lookup(s, addr.svc.ip)
      case Some(id) =>
        var i := Refresh(s.info[id], addr, penalty, now);
        if WantsAnotherSlot(i, addr, rnd) { AddKnownFrame(env, s, id, i, source, now); }
      case None => AddFreshFrame(env, s, addr, source, penalty, now);
    }
  }

  ghost predicate AddKept(s: State, t: State, slot: Slot) {
    && (forall x {:trigger RecordKept(s, t, x)} :: x in t.info && x in s.info ==> RecordKept(s, t, x))
    && (forall x {:trigger RecordKept(s, t, x)} ::
       x in t.info && !RecordKept(s, t, x) ==> x == s.idCount && Pristine(t.info[x]))
    && (forall x {:trigger RecordKept(s, t, x)} ::
       x in s.info && !RecordKept(s, t, x) ==> x in HolderOf(s.newTab, slot))
  }

  lemma KeptAround(s: State, s1: State, t: State, id: int, slot: Slot)
    requires id in s1.info && s1.newTab == s.newTab && KeptBut(s1, t, HolderOf(s1.newTab, slot) + {id})
    requires s1.info == s.info[id := s1.info[id]]
    requires if id in s.info then RecordKept(s, s1, id) && id in t.info else id == s.idCount && Pristine(s1.info[id])
    ensures AddKept(s, t, slot)
  {
    forall x | x in t.info && x in s.info ensures RecordKept(s, t, x) { assert RecordKept(s1, t, x); }
    forall x | x in t.info && !RecordKept(s, t, x) ensures x == s.idCount && Pristine(t.info[x]) {
      assert RecordKept(s1, t, x);
    }
    forall x | x in s.info && !RecordKept(s, t, x) ensures x in HolderOf(s.newTab, slot) {
      assert !RecordKept(s1, t, x);
    }
  }

  ghost predicate Pristine(i: Info) {
    i.lastTry == 0 && i.lastSuccess == 0 && i.attempts == 0 && !i.inTried
  }

  /** A first announcement enters the new table exactly when its slot is free, or its holder is
      terrible or referenced elsewhere too; otherwise the address is forgotten again. */
  lemma AddOutcome(env: Env, s: State, addr: Address, source: NetAddr, timePenalty: int, now: int, rnd: nat)
    requires Consistent(env, s) && env.routable(addr.svc.ip) && addr.svc.ip !in s.ids
    ensures var t := Add(env, s, addr, source, timePenalty, now, rnd);
            var slot := NewSlot(env, s.key, addr.svc, source);
            && (slot in s.newTab ==> NewHashed(env, s, slot))
            && var room := slot in s.newTab ==>
                 !WorthKeeping(s.info[s.newTab[slot]], now) || s.info[s.newTab[slot]].refCount > 1;
               && (addr.svc.ip in t.ids <==> room)
               && (room ==> slot in t.newTab && t.newTab[slot] == s.idCount == t.ids[addr.svc.ip])
               && (room ==> s.idCount in t.info && var i := t.info[s.idCount];
                     && i == Info(addr.svc, addr.services, i.time, source, 0, 0, 0, 0, 1, false, i.randomPos)
                     && i.time == Max(0, if addr.svc.ip == source then addr.time else addr.time - timePenalty))
               && (!room ==> t == s.(idCount := s.idCount + 1))
  {
    hide Indexed, Hashed, Referenced, Counted, IsTerrible, WorthKeeping, NewBucket, BucketPosition, Settle, Delete;
    var penalty := if addr.svc.ip == source then 0 else timePenalty;
    AdmitKeeps(env, s, addr, source, penalty);
    var s1 := Admit(s, addr, source, penalty);
    var slot := NewSlot(env, s.key, addr.svc, source);
    SlotEntry(env, s, slot);
    FreshId(s);
    if slot in s.newTab { TerribleIff(s.info[s.newTab[slot]], now); }
    SettleKeeps(env, s1, s.idCount, source, now);
    SettleOutcome(env, s1, s.idCount, source, now);
    Forgotten(s, addr, source, penalty);
  }

  /** An address that is known gets one more slot exactly if it comes with a later time than the one it now has, is not
      tried, has fewer than eight slots, passes a test that is twice as hard for each of them, and the slot is free or
      held by another entry that may be thrown out. Otherwise no slot changes. */
  lemma AddAgain(env: Env, s: State, addr: Address, source: NetAddr, timePenalty: int, now: int, rnd: nat, id: int)
    requires Consistent(env, s) && env.routable(addr.svc.ip) && addr.svc.ip in s.ids && s.ids[addr.svc.ip] == id
    ensures var t := Add(env, s, addr, source, timePenalty, now, rnd);
            && id in s.info && id in t.info
            && var i := s.info[id]; var slot := NewSlot(env, s.key, i.svc, source);
            && (slot in s.newTab ==> NewHashed(env, s, slot)) && 0 <= i.refCount
            && var gains := && addr.time != 0 && (t.info[id].time == 0 || addr.time > t.info[id].time)
                            && !i.inTried && i.refCount < 8 && rnd % Powers.Pow2(i.refCount) == 0
                            && (slot in s.newTab ==>
                                  s.newTab[slot] != id && !WorthKeeping(s.info[s.newTab[slot]], now));
            && t.info[id].refCount == (if gains then i.refCount + 1 else i.refCount)
            && t.newTab == (if gains then s.newTab[slot := id] else s.newTab)
  {
    hide Indexed, Hashed, Referenced, Counted, IsTerrible, WorthKeeping, NewBucket, BucketPosition;
    KnownEntry(env, s, addr.svc.ip);
    var penalty := if addr.svc.ip == source then 0 else timePenalty;
    var i := Refresh(s.info[id], addr, penalty, now);
    var s1 := s.(info := s.info[id := i]);
    ConsistentUpdate(env, s, s1, id);
    var slot := NewSlot(env, s.key, i.svc, source);
    SlotEntry(env, s, slot);
    if slot in s.newTab { TerribleIff(s.info[s.newTab[slot]], now); }
    if WantsAnotherSlot(i, addr, rnd) {
      RoomLeft(env, s1, id);
      SettleKeeps(env, s1, id, source, now);
      SettleAgain(env, s1, id, source, now);
    }
  }

  lemma FreshId(s: State)
    requires Indexed(s)
    ensures s.idCount !in s.info
  {
    assert s.idCount in s.info ==> IdIndexed(s, s.idCount);
  }

  lemma KnownEntry(env: Env, s: State, ip: NetAddr)
    requires Consistent(env, s) && ip in s.ids
    ensures s.ids[ip] in s.info && 0 <= s.info[s.ids[ip]].refCount <= 8
    ensures !s.info[s.ids[ip]].inTried ==> s.info[s.ids[ip]].refCount > 0
  {
    assert AddrIndexed(s, ip);
    assert IdReferenced(env, s, {}, s.ids[ip]);
  }

  lemma SlotEntry(env: Env, s: State, slot: Slot)
    requires Consistent(env, s)
    ensures slot in s.newTab ==> NewHashed(env, s, slot)
  {
  }

  lemma SettleAgain(env: Env, s: State, id: int, source: NetAddr, now: int)
    requires Consistent(env, s) && Settleable(env, s, id, source) && s.info[id].refCount > 0
    ensures var t := Settle(env, s, id, source, now); var slot := NewSlot(env, s.key, s.info[id].svc, source);
            && id in t.info && t.info[id].time == s.info[id].time && (slot in s.newTab ==> NewHashed(env, s, slot))
            && var gains := slot in s.newTab ==> s.newTab[slot] != id && IsTerrible(s.info[s.newTab[slot]], now);
            && t.info[id].refCount == (if gains then s.info[id].refCount + 1 else s.info[id].refCount)
            && t.newTab == (if gains then s.newTab[slot := id] else s.newTab)
  {
    var slot := NewSlot(env, s.key, s.info[id].svc, source);
    assert slot in s.newTab ==> NewHashed(env, s, slot);
    ClearNewKeeps(env, s, slot, {}, 0);
    assert (s.newTab - {slot})[slot := id] == s.newTab[slot := id];
  }

  /** Deleting the entry just created leaves no trace but the used id. */
  lemma Forgotten(s: State, addr: Address, source: NetAddr, penalty: int)
    requires Indexed(s) && addr.svc.ip !in s.ids && Deletable(Admit(s, addr, source, penalty), s.idCount)
    ensures Delete(Admit(s, addr, source, penalty), s.idCount) == s.(idCount := s.idCount + 1)
  {
    var s1 := Admit(s, addr, source, penalty);
    var t := Delete(s1, s.idCount);
    assert s.idCount !in s.info by { assert s.idCount in s.info ==> IdIndexed(s, s.idCount); }
    assert t.random == s.random && t.ids == s.ids && t.info == s.info;
  }

  lemma SettleOutcome(env: Env, s: State, id: int, source: NetAddr, now: int)
    requires Between(env, s, {id}, 1) && id in s.info && s.info[id].refCount == 0 && Settleable(env, s, id, source)
    ensures var t := Settle(env, s, id, source, now);
            var slot := NewSlot(env, s.key, s.info[id].svc, source);
            && (slot in s.newTab ==> s.newTab[slot] in s.info)
            && if Replaceable(s, id, slot, now) then
                 && slot in t.newTab && t.newTab[slot] == id && s.info[id].svc.ip in t.ids
                 && t.ids[s.info[id].svc.ip] == id
                 && id in t.info && t.info[id] == s.info[id].(refCount := 1, randomPos := t.info[id].randomPos)
               else Deletable(s, id) && t == Delete(s, id) && s.info[id].svc.ip !in t.ids
  {
    var slot := NewSlot(env, s.key, s.info[id].svc, source);
    assert IdReferenced(env, s, {id}, id);
    assert slot in s.newTab ==> NewHashed(env, s, slot) && slot !in Holders(s.newTab, id);
    if Replaceable(s, id, slot, now) {
      ClearNewKeeps(env, s, slot, {id}, 1);
      assert IdIndexed(ClearNew(s, slot), id);
    } else {
      DeleteIndexed(s, id);
    }
  }

  /** An entry other than the one marked good: only its table and its references may change, and never into tried. */
  ghost predicate BystanderKept(s: State, t: State, x: int) {
    && x in s.info && x in t.info && (t.info[x].inTried ==> s.info[x].inTried)
    && t.info[x] == s.info[x].(inTried := t.info[x].inTried, randomPos := t.info[x].randomPos,
       refCount := t.info[x].refCount)
  }

  /** From `s` to `t` only bystanders' tables and references changed, and only entries of `lost` are gone. */
  ghost predicate Bystanders(s: State, t: State, id: int, lost: set<int>) {
    && (forall x {:trigger BystanderKept(s, t, x)} :: x in t.info && x != id ==> BystanderKept(s, t, x))
    && (forall x {:trigger BystanderKept(s, t, x)} :: x in s.info && x != id && !BystanderKept(s, t, x) ==> x in lost)
  }

  /** The holder of the new slot to which the entry in a tried slot would go. */
  ghost function Displaced(env: Env, s: State, slot: Slot): set<int> {
    if slot in s.triedTab && s.triedTab[slot] in s.info then
      var e := s.info[s.triedTab[slot]];
      HolderOf(s.newTab, NewSlot(env, s.key, e.svc, e.source))
    else {}
  }

  lemma EvictFrame(env: Env, s: State, slot: Slot, id: int)
    requires Between(env, s, {id}, 0) && slot in s.triedTab
    ensures Evictable(env, s, slot) && Bystanders(s, Evict(env, s, slot), id, Displaced(env, s, slot))
  {
    var e := s.triedTab[slot];
    EvictKeeps(env, s, slot, {id});
    UntryKeeps(env, s, slot, {id}, 0);
    var s1 := Untry(s, slot);
    var nslot := NewSlot(env, s.key, s.info[e].svc, s.info[e].source);
    ClearNewKeeps(env, s1, nslot, {id} + {e}, 0);
    EvictBystanders(s, s1, ClearNew(s1, nslot), Evict(env, s, slot), e, nslot, id);
  }

  lemma EvictBystanders(s: State, s1: State, s2: State, t: State, e: int, nslot: Slot, id: int)
    requires e in s.info && s1.info == s.info[e := s.info[e].(inTried := false)] && s1.newTab == s.newTab
    requires Cleared(s1, s2, nslot) && e in s2.info && t.info == s2.info[e := s2.info[e].(refCount := 1)]
    ensures Bystanders(s, t, id, HolderOf(s.newTab, nslot))
  {
    forall x | x in t.info && x != id ensures BystanderKept(s, t, x) { }
    forall x | x in s.info && x != id && !BystanderKept(s, t, x) ensures x in HolderOf(s.newTab, nslot) { }
  }

  lemma MakeTriedBystanders(env: Env, s: State, id: int)
    requires Consistent(env, s) && id in s.info && !s.info[id].inTried
    ensures Bystanders(s, MakeTried(env, s, id), id, Displaced(env, s, TriedSlot(env, s.key, s.info[id].svc)))
  {
    WithdrawKeeps(env, s, id);
    var s1 := Withdraw(env, s, id, NEW_BUCKET_COUNT).(nNew := s.nNew - 1);
    var slot := TriedSlot(env, s.key, s.info[id].svc);
    if slot in s1.triedTab {
      EvictKeeps(env, s1, slot, {id});
      EvictFrame(env, s1, slot, id);
      assert TriedHashed(env, s, slot);
      BystandersAround(s, s1, Evict(env, s1, slot), MakeTried(env, s, id), id, Displaced(env, s1, slot),
          Displaced(env, s, slot));
    } else {
      BystandersAround(s, s1, s1, MakeTried(env, s, id), id, {}, {});
    }
  }

  /** Changes to the marked entry itself do not concern bystanders. */
  lemma BystandersAround(s: State, s1: State, s2: State, t: State, id: int, lost: set<int>, lost': set<int>)
    requires id in s.info && id in s1.info && s1.info == s.info[id := s1.info[id]]
    requires (s1 == s2 || Bystanders(s1, s2, id, lost)) && lost <= lost'
    requires id in t.info && forall x :: x != id ==>
               (x in t.info <==> x in s2.info) && (x in t.info ==> t.info[x] == s2.info[x])
    ensures Bystanders(s, t, id, lost')
  {
    forall x | x in t.info && x != id ensures BystanderKept(s, t, x) { assert s1 != s2 ==> BystanderKept(s1, s2, x); }
    forall x | x in s.info && x != id && !BystanderKept(s, t, x) ensures x in lost' {
      assert !BystanderKept(s1, s2, x);
    }
  }

  /** Marking an address good leaves everybody else's record alone, moves nobody else to
      tried, and can only drive out the holder of the new slot that the entry in its way goes to. */
  lemma GoodFrame(env: Env, s: State, svc: Service, time: int, id: int)
    requires Consistent(env, s) && (Lookup(s, svc.ip).Some? ==> Lookup(s, svc.ip).value == id)
    ensures Bystanders(s, Good(env, s, svc, time), id, Displaced(env, s, TriedSlot(env, s.key, svc)))
  {
    var t := Good(env, s, svc, time);
    if Lookup(s, svc.ip).Some? && s.info[id].svc == svc && !s.info[id].inTried {
      var s0 := Touch(s, id, time);
      ConsistentUpdate(env, s, s0, id);
      MakeTriedKeeps(env, s0, id);
      MakeTriedBystanders(env, s0, id);
      var slot := TriedSlot(env, s.key, svc);
      BystandersAround(s, s0, t, t, id, Displaced(env, s0, slot), Displaced(env, s, slot));
    }
  }

  /** Marking an address good moves its own entry to tried. */
  lemma GoodOutcome(env: Env, s: State, svc: Service, time: int)
    requires Consistent(env, s)
    ensures var t := Good(env, s, svc, time);
            && t.lastGood == time
            && (forall x :: x in s.info && s.info[x].svc == svc ==>
                  && x in t.info && t.info[x].inTried && t.info[x].refCount == 0 && t.info[x].attempts == 0
                  && t.info[x].lastSuccess == t.info[x].lastTry == time && t.info[x].time == s.info[x].time)
            && (svc !in Services(s) ==> t == s.(lastGood := time))
  {
    forall x | x in s.info && s.info[x].svc == svc ensures Lookup(s, svc.ip) == Some(x) { assert IdIndexed(s, x); }
    match Lookup(s, svc.ip)
    case None =>
    case Some(id) =>
      if s.info[id].svc == svc {
        assert svc in Services(s);
        var s1 := Touch(s, id, time);
        ConsistentUpdate(env, s, s1, id);
        if !s.info[id].inTried {
          MakeTriedKeeps(env, s1, id);
        } else {
          assert IdReferenced(env, s, {}, id);
        }
      }
  }

  ghost function Services(s: State): set<Service> { set x | x in s.info :: s.info[x].svc }

  ghost predicate TimedInfo(i: Info) {
    i.lastTry >= 0 && i.lastSuccess >= 0 && (i.inTried ==> i.lastSuccess != 0)
  }

  lemma AddKeepsTimed(s: State, t: State, slot: Slot)
    requires Timed(s) && AddKept(s, t, slot)
    ensures Timed(t)
  {
    forall x | x in t.info ensures TimedInfo(t.info[x]) {
      if RecordKept(s, t, x) { assert TimedInfo(s.info[x]); } else { assert Pristine(t.info[x]); }
    }
  }

  lemma GoodKeepsTimed(env: Env, s: State, svc: Service, time: int)
    requires Consistent(env, s) && Timed(s)
    ensures Timed(Good(env, s, svc, time)) <==> svc in Services(s) ==> time > 0
  {
    var t := Good(env, s, svc, time);
    var id := if Lookup(s, svc.ip).Some? then Lookup(s, svc.ip).value else 0;
    GoodFrame(env, s, svc, time, id);
    GoodOutcome(env, s, svc, time);
    if svc in Services(s) {
      var x :| x in s.info && s.info[x].svc == svc;
      assert IdIndexed(s, x);
      assert TimedInfo(t.info[x]) <==> time > 0;
    }
    if svc in Services(s) ==> time > 0 {
      forall x | x in t.info ensures TimedInfo(t.info[x]) {
        if x != id { assert BystanderKept(s, t, x) && TimedInfo(s.info[x]); }
      }
    }
  }

  /** Good_ is given a positive time, and Attempt_ none that is negative, wherever they find their address. */
  ghost predicate TimesFine(s: State, op: Op) {
    match op
    case OpGood(svc, time) => svc in Services(s) ==> time > 0
    case OpAttempt(svc, _, time) => svc in Services(s) ==> time >= 0
    case _ => true
  }

  /** The time checks of `Check_` survive a step exactly if it is given a fine time. */
  lemma StepKeepsTimed(env: Env, s: State, op: Op)
    requires Consistent(env, s) && Timed(s)
    ensures Timed(Step(env, s, op)) <==> TimesFine(s, op)
  {
    var t := Step(env, s, op);
    match op
    case OpAdd(addr, source, penalty, now, rnd) =>
      AddFrame(env, s, addr, source, penalty, now, rnd);
      AddKeepsTimed(s, t, AddSlot(env, s, addr, source));
    case OpGood(svc, time) => GoodKeepsTimed(env, s, svc, time);
    case OpGetAddr(now, pick) =>
      GetAddrReply(env, s, now, pick);
      forall x | x in t.info ensures TimedInfo(t.info[x]) { assert TimedInfo(s.info[x]); }
    case OpAttempt(svc, countFailure, time) => AttemptKeepsTimed(env, s, svc, countFailure, time);
    case _ => UpdateKeepsTimed(env, s, op);
  }

  lemma AttemptKeepsTimed(env: Env, s: State, svc: Service, countFailure: bool, time: int)
    requires Consistent(env, s) && Timed(s)
    ensures Timed(Attempt(s, svc, countFailure, time)) <==> svc in Services(s) ==> time >= 0
  {
    hide Hashed, Referenced, Counted;
    var t := Attempt(s, svc, countFailure, time);
    forall x | x in s.info && s.info[x].svc == svc ensures Lookup(s, svc.ip) == Some(x) { assert IdIndexed(s, x); }
    if svc in Services(s) {
      var x :| x in s.info && s.info[x].svc == svc;
      assert TimedInfo(s.info[x]) && (TimedInfo(t.info[x]) <==> time >= 0);
      assert forall y :: y in t.info && y != x ==> t.info[y] == s.info[y];
    } else {
      assert t == s by { if Lookup(s, svc.ip).Some? { assert s.info[Lookup(s, svc.ip).value].svc in Services(s); } }
    }
  }

  lemma UpdateKeepsTimed(env: Env, s: State, op: Op)
    requires Consistent(env, s) && Timed(s) && (op.OpConnected? || op.OpSetServices?)
    ensures Timed(Step(env, s, op))
  {
    var t := Step(env, s, op);
    if t != s {
      var id := Lookup(s, op.svc.ip).value;
      assert TimedInfo(s.info[id]);
      assert forall x :: x in t.info && x != id ==> t.info[x] == s.info[x];
    }
  }

  /** The states an address manager goes through: a fresh one, then one operation after another. */
  ghost predicate IsRun(env: Env, key: nat, ops: seq<Op>, states: seq<State>) {
    && |states| == |ops| + 1 && states[0] == Initial(key)
    && forall i :: 0 <= i < |ops| ==> Consistent(env, states[i]) ==> states[i + 1] == Step(env, states[i], ops[i])
  }

  /** Every state of every run passes every structural check of `Check_`. */
  lemma {:induction false} RunConsistent(env: Env, key: nat, ops: seq<Op>, states: seq<State>, n: nat)
    requires IsRun(env, key, ops, states) && n < |states|
    ensures Consistent(env, states[n])
    ensures |states[n].random| == states[n].nTried + states[n].nNew == |states[n].info|
    ensures states[n].key == key
  {
    hide Consistent, Step;
    if n == 0 {
      InitialConsistent(env, key);
    } else {
      RunConsistent(env, key, ops, states, n - 1);
      assert states[n - 1 + 1] == Step(env, states[n - 1], ops[n - 1]);
      StepKeeps(env, states[n - 1], ops[n - 1]);
      StepKeepsKey(env, states[n - 1], ops[n - 1]);
    }
    SizesAgree(env, states[n]);
  }

  /** All its states pass the time checks exactly if all its operations were given fine times. */
  lemma {:induction false} RunTimed(env: Env, key: nat, ops: seq<Op>, states: seq<State>, n: nat)
    requires IsRun(env, key, ops, states) && n < |states|
    ensures (forall m :: 0 <= m <= n ==> Timed(states[m])) <==> forall i :: 0 <= i < n ==> TimesFine(states[i], ops[i])
  {
    hide Timed, TimesFine;
    if n == 0 {
      InitialTimed(key);
    } else {
      RunTimed(env, key, ops, states, n - 1);
      RunConsistent(env, key, ops, states, n - 1);
      assert states[n - 1 + 1] == Step(env, states[n - 1], ops[n - 1]);
      if Timed(states[n - 1]) { StepKeepsTimed(env, states[n - 1], ops[n - 1]); }
    }
  }

  /** A run that fails them: an address is added, and then reported good at time zero. */
  lemma GoodAtZero(env: Env, key: nat, addr: Address, source: NetAddr, penalty: int, now: int, rnd: nat,
                   states: seq<State>)
    requires env.routable(addr.svc.ip)
    requires IsRun(env, key, [OpAdd(addr, source, penalty, now, rnd), OpGood(addr.svc, 0)], states)
    ensures Timed(states[1]) && !Timed(states[2])
  {
    hide Timed, Consistent, Step;
    var ops := [OpAdd(addr, source, penalty, now, rnd), OpGood(addr.svc, 0)];
    RunConsistent(env, key, ops, states, 0);
    RunConsistent(env, key, ops, states, 1);
    RunTimed(env, key, ops, states, 1);
    assert states[0 + 1] == Step(env, states[0], ops[0]) && states[1 + 1] == Step(env, states[1], ops[1]);
    FirstAdded(env, key, addr, source, penalty, now, rnd);
    StepKeepsTimed(env, states[1], ops[1]);
  }

  lemma FirstAdded(env: Env, key: nat, addr: Address, source: NetAddr, penalty: int, now: int, rnd: nat)
    requires env.routable(addr.svc.ip) && Consistent(env, Initial(key))
    ensures addr.svc in Services(Step(env, Initial(key), OpAdd(addr, source, penalty, now, rnd)))
  {
    hide Consistent;
    var t := Add(env, Initial(key), addr, source, penalty, now, rnd);
    assert 0 in t.info && t.info[0].svc == addr.svc;
  }

  lemma InitialTimed(key: nat)
    ensures Timed(Initial(key))
  {
  }

  lemma InitialConsistent(env: Env, key: nat)
    ensures Consistent(env, Initial(key)) && Timed(Initial(key))
  {
    assert TriedIds(Initial(key).info) == {} && NewIds(Initial(key).info) == {};
  }

  // ---------------------------------------------------------------- spreading over buckets

  /** The bucket that a second-stage hash of a group gives. */
  function Choice(env: Env, key: nat, group: seq<nat>, count: nat, h: nat): nat
    requires count > 0
  {
    env.digest([Key(key), Group(group), Number(h)]) % count
  }

  ghost function Choices(env: Env, key: nat, group: seq<nat>, count: nat, n: nat): set<nat>
    requires count > 0
  {
    set h: nat | h < n :: Choice(env, key, group, count, h)
  }

  lemma {:induction false} ChoicesFew(env: Env, key: nat, group: seq<nat>, count: nat, n: nat)
    requires count > 0
    ensures |Choices(env, key, group, count, n)| <= n
  {
    hide Choice;
    if n == 0 {
      assert Choices(env, key, group, count, 0) == {};
    } else {
      ChoicesFew(env, key, group, count, n - 1);
      assert Choices(env, key, group, count, n) == Choices(env, key, group, count, n - 1)
          + {Choice(env, key, group, count, n - 1)};
    }
  }

  lemma {:induction false} FewerBuckets(a: set<nat>, b: set<nat>)
    requires a <= b
    ensures |a| <= |b|
  {
    if a != {} {
      var x :| x in a;
      FewerBuckets(a - {x}, b - {x});
    }
  }

  /** All addresses of one group together reach at most 8 tried buckets. */
  lemma GroupInFewTried(env: Env, key: nat, group: seq<nat>, svcs: set<Service>)
    requires forall svc :: svc in svcs ==> env.group(svc.ip) == group
    ensures |set svc | svc in svcs :: TriedBucket(env, key, svc)| <= TRIED_BUCKETS_PER_GROUP
  {
    var reached := set svc | svc in svcs :: TriedBucket(env, key, svc);
    var choices := Choices(env, key, group, TRIED_BUCKET_COUNT, TRIED_BUCKETS_PER_GROUP);
    forall svc | svc in svcs ensures TriedBucket(env, key, svc) in choices {
      var h: nat := env.digest([Key(key), Endpoint(svc)]) % TRIED_BUCKETS_PER_GROUP;
      assert Choice(env, key, group, TRIED_BUCKET_COUNT, h) in choices;
    }
    ChoicesFew(env, key, group, TRIED_BUCKET_COUNT, TRIED_BUCKETS_PER_GROUP);
    FewerBuckets(reached, choices);
  }

  /** All that the sources of one group announce reaches at most 64 new buckets. */
  lemma SourceInFewNew(env: Env, key: nat, group: seq<nat>, news: set<(Service, NetAddr)>)
    requires forall x :: x in news ==> env.group(x.1) == group
    ensures |set x | x in news :: NewBucket(env, key, x.0, x.1)| <= NEW_BUCKETS_PER_SOURCE_GROUP
  {
    var reached := set x | x in news :: NewBucket(env, key, x.0, x.1);
    var choices := Choices(env, key, group, NEW_BUCKET_COUNT, NEW_BUCKETS_PER_SOURCE_GROUP);
    forall x | x in news ensures NewBucket(env, key, x.0, x.1) in choices {
      var h: nat := env.digest([Key(key), Group(env.group(x.0.ip)), Group(group)]) % NEW_BUCKETS_PER_SOURCE_GROUP;
      assert Choice(env, key, group, NEW_BUCKET_COUNT, h) in choices;
    }
    ChoicesFew(env, key, group, NEW_BUCKET_COUNT, NEW_BUCKETS_PER_SOURCE_GROUP);
    FewerBuckets(reached, choices);
  }

  /** An address is in at most 8 slots of the new table, and in no bucket twice. */
  lemma FewSlotsEach(env: Env, s: State, id: int, a: Slot, b: Slot)
    requires Consistent(env, s) && id in s.info
    ensures |Holders(s.newTab, id)| <= NEW_BUCKETS_PER_ADDRESS
    ensures a in Holders(s.newTab, id) && b in Holders(s.newTab, id) && a.bucket == b.bucket ==> a == b
  {
    assert IdReferenced(env, s, {}, id);
    forall sl | sl in Holders(s.newTab, id) ensures NewHashed(env, s, sl) && !s.info[id].inTried {
      assert NewHashed(env, s, sl);
    }
    if s.info[id].inTried { assert Holders(s.newTab, id) == {}; }
  }

  /** What is announced again never sets a time back, leaves it less than a day (and the penalty) behind the announced
      one, and only adds services. */
  lemma RefreshOnlyGains(i: Info, addr: Address, penalty: int, now: int)
    ensures var j := Refresh(i, addr, penalty, now);
            && j.time >= i.time && (j.time == i.time || j.time == Max(0, addr.time - penalty))
            && (addr.time != 0 ==> j.time >= addr.time - 24 * 60 * 60 - penalty)
            && (addr.time != 0 && now - addr.time < 24 * 60 * 60 ==> j.time >= addr.time - 60 * 60 - penalty)
            && (now - addr.time >= 24 * 60 * 60 && i.time != 0 && i.time >= addr.time - 24 * 60 * 60 - penalty ==>
                  j.time == i.time)
            && (i.time != 0 && i.time >= addr.time - 60 * 60 - penalty ==> j.time == i.time)
            && (addr.time == 0 ==> j.time == i.time)
            && j.services == i.services + addr.services && j == i.(time := j.time, services := j.services)
  {
  }

  /** From `s` to `t` at most the entry with this very service changes, and stays in its place and in its slots. */
  ghost predicate OnlyEntry(s: State, t: State, svc: Service) {
    && t == s.(info := t.info) && t.info.Keys == s.info.Keys
    && forall x :: x in s.info && t.info[x] != s.info[x] ==>
         s.info[x].svc == svc
         && t.info[x] == s.info[x].(lastTry := t.info[x].lastTry, lastCountAttempt := t.info[x].lastCountAttempt,
                                    attempts := t.info[x].attempts, time := t.info[x].time,
                                    services := t.info[x].services)
  }

  /** An attempt sets the last try. It counts if failures are to be counted and none was since the last success of any
      peer; then its time is noted. */
  lemma AttemptOutcome(env: Env, s: State, svc: Service, countFailure: bool, time: int, x: int)
    requires Consistent(env, s)
    ensures var t := Attempt(s, svc, countFailure, time);
            && OnlyEntry(s, t, svc)
            && (x in s.info && s.info[x].svc == svc ==>
                  var i, j := s.info[x], t.info[x];
                  && j.lastTry == time && j.time == i.time && j.services == i.services
                  && (countFailure && i.lastCountAttempt < s.lastGood ==>
                        j.attempts == i.attempts + 1 && j.lastCountAttempt == time)
                  && (!countFailure || i.lastCountAttempt >= s.lastGood ==>
                        j.attempts == i.attempts && j.lastCountAttempt == i.lastCountAttempt))
  {
    if x in s.info { assert IdIndexed(s, x); }
  }

  /** So between two successes at most one failure of an address counts, however often it is attempted. */
  lemma CountedOnce(env: Env, s: State, svc: Service, first: int, count: bool, later: int, x: int)
    requires Consistent(env, s) && x in s.info && first >= s.lastGood
    ensures var t := Attempt(s, svc, true, first); var u := Attempt(t, svc, count, later);
            x in t.info && x in u.info && s.info[x].attempts <= t.info[x].attempts == u.info[x].attempts
            <= s.info[x].attempts + 1
  {
    assert IdIndexed(s, x);
  }

  /** A connection brings the time forward if it is more than 20 minutes ahead. */
  lemma ConnectedOutcome(env: Env, s: State, svc: Service, time: int, x: int)
    requires Consistent(env, s)
    ensures var t := Connected(s, svc, time);
            && OnlyEntry(s, t, svc)
            && (x in s.info && s.info[x].svc == svc ==>
                  var i, j := s.info[x], t.info[x];
                  && j.time == (if time > i.time + 1200 then time else i.time)
                  && j == i.(time := j.time))
  {
    if x in s.info { assert IdIndexed(s, x); }
  }

  lemma SetServicesOutcome(env: Env, s: State, svc: Service, services: set<nat>, x: int)
    requires Consistent(env, s)
    ensures var t := SetServices(s, svc, services);
            && OnlyEntry(s, t, svc)
            && (x in s.info && s.info[x].svc == svc ==> t.info[x] == s.info[x].(services := services))
  {
    if x in s.info { assert IdIndexed(s, x); }
  }

  lemma SizesAgree(env: Env, s: State)
    requires Consistent(env, s)
    ensures |s.random| == s.nTried + s.nNew == |s.info|
  {
    hide Hashed, Referenced;
    assert TriedIds(s.info) + NewIds(s.info) == s.info.Keys;
    assert TriedIds(s.info) !! NewIds(s.info);
    assert NewIds(s.info) - {} == NewIds(s.info);
    forall i | 0 <= i < |s.random| ensures s.random[i] in s.info.Keys && s.info[s.random[i]].randomPos == i {
      assert PosIndexed(s, i);
    }
    forall x | x in s.info.Keys ensures x in s.random { assert IdIndexed(s, x); }
    DistinctSize(s.random, s.info.Keys);
  }

  lemma {:induction false} DistinctSize(q: seq<int>, keys: set<int>)
    requires Distinct(q) && forall x :: x in keys <==> x in q
    ensures |q| == |keys|
  {
    if q == [] {
      assert forall x :: x !in keys;
    } else {
      DistinctSize(q[1..], keys - {q[0]});
    }
  }
}
