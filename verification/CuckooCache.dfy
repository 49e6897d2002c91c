/** The cuckoo cache: a table with eight locations per element, garbage-collection flags, and two
    epochs. Hash values are a parameter; the mask by size - 1 is written as a remainder, which is
    the same for the powers of two that setup chooses. */
module CuckooCache {

  import opened ByteBits
  import opened Powers

  /** The hash functions and the value of a default-constructed element. */
  datatype Env<!E> = Env(hash: (E, nat) -> nat, blank: E)

  datatype Cache<E> = Cache(
    table: seq<E>,
    collected: seq<bool>,   // collection_flags
    recent: seq<bool>,      // epoch_flags
    counter: nat,           // epoch_heuristic_counter
    epochSize: nat,
    depthLimit: nat)

  ghost predicate Shaped<E>(s: Cache<E>) {
    |s.table| == |s.collected| == |s.recent| > 0
  }

  function Loc<E>(env: Env<E>, size: nat, e: E, k: nat): nat
    requires size > 0
  {
    env.hash(e, k) % size
  }

  function Locs<E>(env: Env<E>, size: nat, e: E): (locs: seq<nat>)
    requires size > 0
    ensures |locs| == 8 && forall k :: 0 <= k < 8 ==> locs[k] < size
  {
    [Loc(env, size, e, 0), Loc(env, size, e, 1), Loc(env, size, e, 2), Loc(env, size, e, 3),
     Loc(env, size, e, 4), Loc(env, size, e, 5), Loc(env, size, e, 6), Loc(env, size, e, 7)]
  }

  // ------------------------------------------------------------ operations

  /** The first of the locations, from the k-th on, where a flag is raised; 8 if none. */
  function FirstWhere(flags: seq<bool>, locs: seq<nat>, k: nat): (r: nat)
    requires |locs| == 8 && (forall j :: 0 <= j < 8 ==> locs[j] < |flags|) && k <= 8
    ensures k <= r <= 8 && (r < 8 ==> flags[locs[r]])
    ensures forall j :: k <= j < r ==> !flags[locs[j]]
    decreases 8 - k
  {
    if k == 8 || flags[locs[k]] then k else FirstWhere(flags, locs, k + 1)
  }

  /** The first of the locations, from the k-th on, that holds e; 8 if none. */
  function FirstHolding<E(==)>(table: seq<E>, locs: seq<nat>, e: E, k: nat): (r: nat)
    requires |locs| == 8 && (forall j :: 0 <= j < 8 ==> locs[j] < |table|) && k <= 8
    ensures k <= r <= 8 && (r < 8 ==> table[locs[r]] == e)
    ensures forall j :: k <= j < r ==> table[locs[j]] != e
    decreases 8 - k
  {
    if k == 8 || table[locs[k]] == e then k else FirstHolding(table, locs, e, k + 1)
  }

  /** std::find over the eight locations. */
  function Find(locs: seq<nat>, x: int, k: nat): (r: nat)
    requires |locs| == 8 && k <= 8
    ensures k <= r <= 8
    decreases 8 - k
  {
    if k == 8 || locs[k] == x then k else Find(locs, x, k + 1)
  }

  function Put<E>(s: Cache<E>, loc: nat, e: E, epoch: bool): Cache<E>
    requires Shaped(s) && loc < |s.table|
  {
    s.(table := s.table[loc := e], collected := s.collected[loc := false], recent := s.recent[loc := epoch])
  }

  function Swapped<E>(s: Cache<E>, loc: nat, e: E, epoch: bool): Cache<E>
    requires Shaped(s) && loc < |s.table|
  {
    s.(table := s.table[loc := e], recent := s.recent[loc := epoch])
  }

  /** The location to swap with: the one after the last looked at, in the order of the element's own locations. */
  function SwapLoc<E>(env: Env<E>, s: Cache<E>, e: E, lastLoc: int): (loc: nat)
    requires Shaped(s)
    ensures loc < |s.table| && loc in Locs(env, |s.table|, e)
  {
    var locs := Locs(env, |s.table|, e);
    locs[(1 + Find(locs, lastLoc, 0)) % 8]
  }

  function Place<E>(env: Env<E>, s: Cache<E>, e: E, lastLoc: int, epoch: bool, depth: nat): Cache<E>
    requires Shaped(s)
    decreases depth
  {
    if depth == 0 then s else
      var locs := Locs(env, |s.table|, e);
      var k := FirstWhere(s.collected, locs, 0);
      if k < 8 then Put(s, locs[k], e, epoch) else
        var loc := SwapLoc(env, s, e, lastLoc);
        Place(env, Swapped(s, loc, e, epoch), s.table[loc], loc, s.recent[loc], depth - 1)
  }

  function Max(a: int, b: int): int { if a < b then b else a }

  /** How many of the first n slots are kept and have this epoch flag. */
  function Kept(collected: seq<bool>, recent: seq<bool>, epoch: bool, n: nat): nat
    requires n <= |collected| == |recent|
  {
    if n == 0 then 0 else
      Kept(collected, recent, epoch, n - 1) + if !collected[n - 1] && recent[n - 1] == epoch then 1 else 0
  }

  function KeptIn<E>(s: Cache<E>, epoch: bool): nat
    requires Shaped(s)
  {
    Kept(s.collected, s.recent, epoch, |s.table|)
  }

  function Aged<E>(s: Cache<E>): Cache<E>
    requires Shaped(s)
  {
    s.(collected := seq(|s.table|, i requires 0 <= i < |s.table| => s.collected[i] || !s.recent[i]),
       recent := seq(|s.table|, i requires 0 <= i < |s.table| => false),
       counter := s.epochSize)
  }

  function EpochChecked<E>(s: Cache<E>): Cache<E>
    requires Shaped(s)
  {
    if s.counter != 0 then s.(counter := s.counter - 1) else
      var unused := KeptIn(s, true);
      if unused >= s.epochSize then Aged(s)
      else s.(counter := Max(1, Max(s.epochSize / 16, s.epochSize - unused)))
  }

  function Entered<E(==)>(env: Env<E>, s: Cache<E>, e: E): Cache<E>
    requires Shaped(s)
  {
    var locs := Locs(env, |s.table|, e);
    var k := FirstHolding(s.table, locs, e, 0);
    if k < 8 then Put(s, locs[k], e, true) else Place(env, s, e, -1, true, s.depthLimit)
  }

  function Inserted<E(==)>(env: Env<E>, s: Cache<E>, e: E): Cache<E>
    requires Shaped(s)
  {
    Entered(env, EpochChecked(s), e)
  }

  predicate Holds<E(==)>(env: Env<E>, s: Cache<E>, e: E)
    requires Shaped(s)
  {
    FirstHolding(s.table, Locs(env, |s.table|, e), e, 0) < 8
  }

  function Erased<E(==)>(env: Env<E>, s: Cache<E>, e: E): Cache<E>
    requires Shaped(s)
  {
    var locs := Locs(env, |s.table|, e);
    var k := FirstHolding(s.table, locs, e, 0);
    if k < 8 then s.(collected := s.collected[locs[k] := true]) else s
  }

  function Fresh<E>(env: Env<E>, depthLimit: nat): (s: Cache<E>)
    ensures Shaped(s)
  {
    var size := Pow2(depthLimit);
    var epochSize := Max(1, 45 * size % 0x1_0000_0000 / 100);
    Cache(seq(size, _ => env.blank), seq(size, _ => true), seq(size, _ => false), epochSize, epochSize, depthLimit)
  }

  // ------------------------------------------------------------ the invariant

  /** A slot that is kept, or holds anything but the blank element, is one of its element's own locations. */
  ghost predicate AtHome<E>(env: Env<E>, s: Cache<E>, i: nat)
    requires Shaped(s) && i < |s.table|
  {
    s.table[i] != env.blank || !s.collected[i] ==> i in Locs(env, |s.table|, s.table[i])
  }

  ghost predicate Placed<E(!new)>(env: Env<E>, s: Cache<E>) {
    Shaped(s) && forall i {:trigger AtHome(env, s, i)} :: 0 <= i < |s.table| ==> AtHome(env, s, i)
  }

  /** No element but the blank one occupies two slots. */
  ghost predicate Single<E>(env: Env<E>, s: Cache<E>) {
    forall i, j :: 0 <= i < j < |s.table| && s.table[i] == s.table[j] ==> s.table[i] == env.blank
  }

  ghost predicate Sound<E(!new)>(env: Env<E>, s: Cache<E>) {
    Placed(env, s) && Single(env, s)
  }

  /** An element being moved is not in the table. */
  ghost predicate Carried<E>(env: Env<E>, s: Cache<E>, e: E) {
    e == env.blank || e !in s.table
  }

  ghost function Live<E>(s: Cache<E>): set<E>
    requires Shaped(s)
  {
    set i | 0 <= i < |s.table| && !s.collected[i] :: s.table[i]
  }

  /** From `before`, with e added, at most one element is gone. */
  ghost predicate AllButOne<E(!new)>(before: set<E>, e: E, after: set<E>) {
    after <= before + {e} && exists d :: AllBut(before, e, after, d)
  }

  ghost predicate AllBut<E>(before: set<E>, e: E, after: set<E>, d: E) {
    before + {e} <= after + {d}
  }

  lemma PutKeeps<E(!new)>(env: Env<E>, s: Cache<E>, loc: nat, e: E, epoch: bool)
    requires Sound(env, s) && loc in Locs(env, |s.table|, e) && loc < |s.table|
    requires Carried(env, s, e) || s.table[loc] == e
    ensures Sound(env, Put(s, loc, e, epoch))
  {
    var s' := Put(s, loc, e, epoch);
    forall i | 0 <= i < |s'.table|
      ensures AtHome(env, s', i)
    {
      assert AtHome(env, s, i);
    }
  }

  lemma SwappedKeeps<E(!new)>(env: Env<E>, s: Cache<E>, loc: nat, e: E, epoch: bool)
    requires Sound(env, s) && Carried(env, s, e) && loc in Locs(env, |s.table|, e) && loc < |s.table|
    ensures Sound(env, Swapped(s, loc, e, epoch)) && Carried(env, Swapped(s, loc, e, epoch), s.table[loc])
  {
    var s' := Swapped(s, loc, e, epoch);
    forall i | 0 <= i < |s'.table|
      ensures AtHome(env, s', i)
    {
      assert AtHome(env, s, i);
    }
  }

  lemma LivePut<E>(s: Cache<E>, loc: nat, e: E, epoch: bool)
    requires Shaped(s) && loc < |s.table| && (s.collected[loc] || s.table[loc] == e)
    ensures Live(Put(s, loc, e, epoch)) == Live(s) + {e}
  {
    var s' := Put(s, loc, e, epoch);
    assert !s'.collected[loc] && s'.table[loc] == e;
    forall x | x in Live(s)
      ensures x in Live(s')
    {
      var i :| 0 <= i < |s.table| && !s.collected[i] && s.table[i] == x;
      assert !s'.collected[i] && s'.table[i] == x;
    }
  }

  lemma LiveSwapped<E>(s: Cache<E>, loc: nat, e: E, epoch: bool)
    requires Shaped(s) && loc < |s.table| && !s.collected[loc]
    ensures Live(Swapped(s, loc, e, epoch)) + {s.table[loc]} == Live(s) + {e}
  {
    var s' := Swapped(s, loc, e, epoch);
    assert !s'.collected[loc] && s'.table[loc] == e;
    forall x | x in Live(s)
      ensures x in Live(s') + {s.table[loc]}
    {
      var i :| 0 <= i < |s.table| && !s.collected[i] && s.table[i] == x;
      assert i != loc ==> !s'.collected[i] && s'.table[i] == x;
    }
    assert s.table[loc] in Live(s);
  }

  /** Placing an element moves others about but loses at most one. */
  lemma {:induction false} PlaceKeeps<E(!new)>(env: Env<E>, s: Cache<E>, e: E, lastLoc: int, epoch: bool, depth: nat)
    requires Sound(env, s) && Carried(env, s, e)
    ensures var s' := Place(env, s, e, lastLoc, epoch, depth);
            Sound(env, s') && |s'.table| == |s.table| && AllButOne(Live(s), e, Live(s'))
    decreases depth
  {
    hide Locs, Find, FirstWhere;
    if depth == 0 {
      assert AllBut(Live(s), e, Live(s), e);
    } else {
      var locs := Locs(env, |s.table|, e);
      var k := FirstWhere(s.collected, locs, 0);
      if k < 8 {
        PutKeeps(env, s, locs[k], e, epoch);
        LivePut(s, locs[k], e, epoch);
        assert AllBut(Live(s), e, Live(Put(s, locs[k], e, epoch)), e);
      } else {
        var loc := SwapLoc(env, s, e, lastLoc);
        SwappedKeeps(env, s, loc, e, epoch);
        LiveSwapped(s, loc, e, epoch);
        var s1, e1 := Swapped(s, loc, e, epoch), s.table[loc];
        PlaceKeeps(env, s1, e1, loc, s.recent[loc], depth - 1);
        var s' := Place(env, s, e, lastLoc, epoch, depth);
        var d :| AllBut(Live(s1), e1, Live(s'), d);
        assert AllBut(Live(s), e, Live(s'), d);
      }
    }
  }

  /** The elements in hand while one is placed, that one first. */
  ghost function Hands<E>(env: Env<E>, s: Cache<E>, e: E, lastLoc: int, epoch: bool, depth: nat): (c: seq<E>)
    requires Shaped(s)
    ensures 0 < |c| <= depth + 1 && c[0] == e
    decreases depth
  {
    if depth == 0 || FirstWhere(s.collected, Locs(env, |s.table|, e), 0) < 8 then [e] else
      var loc := SwapLoc(env, s, e, lastLoc);
      [e] + Hands(env, Swapped(s, loc, e, epoch), s.table[loc], loc, s.recent[loc], depth - 1)
  }

  /** From `before`, with e added, nothing is gone, or, after a chain of full length, the last one in hand. */
  ghost predicate LosesLast<E>(before: set<E>, e: E, after: set<E>, hands: seq<E>, depth: nat) {
    && 0 < |hands| <= depth + 1
    && if |hands| <= depth then after == before + {e} else after + {hands[depth]} == before + {e}
  }

  /** Placing an element loses nothing, or, if the chain of swaps was as long as it may get, exactly the last one in
      hand. So the new one is stored, unless a chain of that length brought it back to hand in the end. */
  lemma {:induction false} PlaceExact<E(!new)>(env: Env<E>, s: Cache<E>, e: E, lastLoc: int, epoch: bool, depth: nat)
    requires Sound(env, s) && Carried(env, s, e)
    ensures var s' := Place(env, s, e, lastLoc, epoch, depth); var c := Hands(env, s, e, lastLoc, epoch, depth);
            && Shaped(s') && LosesLast(Live(s), e, Live(s'), c, depth)
            && (e in Live(s') || (|c| == depth + 1 && c[depth] == e))
    decreases depth
  {
    hide Locs, Find, FirstWhere, Single, AtHome, Carried, Live, SwapLoc;
    if depth > 0 {
      var locs := Locs(env, |s.table|, e);
      var k := FirstWhere(s.collected, locs, 0);
      FreeIs(s.collected, locs);
      if k < 8 {
        LivePut(s, locs[k], e, epoch);
      } else {
        var loc := SwapLoc(env, s, e, lastLoc);
        SwapIsKept(env, s, e, lastLoc);
        SwappedKeeps(env, s, loc, e, epoch);
        LiveSwapped(s, loc, e, epoch);
        var s1, e1 := Swapped(s, loc, e, epoch), s.table[loc];
        PlaceExact(env, s1, e1, loc, s.recent[loc], depth - 1);
      }
    }
  }

  lemma FreeIs(collected: seq<bool>, locs: seq<nat>)
    requires |locs| == 8 && forall i :: 0 <= i < 8 ==> locs[i] < |collected|
    ensures var k := FirstWhere(collected, locs, 0);
            if k < 8 then collected[locs[k]] else forall i :: 0 <= i < 8 ==> !collected[locs[i]]
  {
  }

  lemma SwapIsKept<E>(env: Env<E>, s: Cache<E>, e: E, lastLoc: int)
    requires Shaped(s) && forall i :: 0 <= i < 8 ==> !s.collected[Locs(env, |s.table|, e)[i]]
    ensures !s.collected[SwapLoc(env, s, e, lastLoc)]
  {
  }

  /** A swap goes to the location after the one last swapped with, in the order of the element's own eight, and comes
      round to the first again; one that starts afresh goes to the second. */
  lemma SwapOrder<E>(env: Env<E>, s: Cache<E>, e: E, lastLoc: int, j: nat)
    requires Shaped(s) && j < 8 && forall i :: 0 <= i < j ==> Locs(env, |s.table|, e)[i] != lastLoc
    ensures var locs := Locs(env, |s.table|, e);
            && (locs[j] == lastLoc ==> SwapLoc(env, s, e, lastLoc) == if j == 7 then locs[0] else locs[j + 1])
            && (lastLoc !in locs ==> SwapLoc(env, s, e, lastLoc) == locs[1])
  {
    hide Locs;
    var locs := Locs(env, |s.table|, e);
    FindIs(locs, lastLoc, 0, j);
  }

  lemma {:induction false} FindIs(locs: seq<nat>, x: int, k: nat, j: nat)
    requires |locs| == 8 && k <= j < 8 && forall i :: k <= i < j ==> locs[i] != x
    ensures locs[j] == x ==> Find(locs, x, k) == j
    ensures (forall i :: k <= i < 8 ==> locs[i] != x) ==> Find(locs, x, k) == 8
    decreases 8 - k
  {
    if k < j {
      FindIs(locs, x, k + 1, j);
    } else if k < 7 && locs[k] != x {
      FindIs(locs, x, k + 1, k + 1);
    }
  }

  /** Entering an element: the live elements are those before and the new one, but for at most one. */
  lemma EnteredKeeps<E(!new)>(env: Env<E>, s: Cache<E>, e: E)
    requires Sound(env, s)
    ensures var s' := Entered(env, s, e);
            Sound(env, s') && |s'.table| == |s.table| && AllButOne(Live(s), e, Live(s'))
  {
    var locs := Locs(env, |s.table|, e);
    var k := FirstHolding(s.table, locs, e, 0);
    if k < 8 {
      PutKeeps(env, s, locs[k], e, true);
      LivePut(s, locs[k], e, true);
      assert AllBut(Live(s), e, Live(Put(s, locs[k], e, true)), e);
    } else {
      NotHeld(env, s, e);
      PlaceKeeps(env, s, e, -1, true, s.depthLimit);
    }
  }

  /** An element found at none of its locations is nowhere in the table. */
  lemma NotHeld<E(!new)>(env: Env<E>, s: Cache<E>, e: E)
    requires Placed(env, s) && !Holds(env, s, e)
    ensures Carried(env, s, e)
  {
    if e in s.table {
      var i :| 0 <= i < |s.table| && s.table[i] == e;
      assert AtHome(env, s, i);
    }
  }

  /** When the element is already there, or one of its locations is free, nothing is lost. */
  lemma EnteredLossless<E>(env: Env<E>, s: Cache<E>, e: E)
    requires Shaped(s) && s.depthLimit > 0
    requires Holds(env, s, e) || exists k :: 0 <= k < 8 && s.collected[Locs(env, |s.table|, e)[k]]
    ensures Live(Entered(env, s, e)) == Live(s) + {e}
  {
    var locs := Locs(env, |s.table|, e);
    var k := FirstHolding(s.table, locs, e, 0);
    if k < 8 {
      LivePut(s, locs[k], e, true);
    } else {
      var j := FirstWhere(s.collected, locs, 0);
      LivePut(s, locs[j], e, true);
    }
  }

  /** Every live element is found; any element but the blank one is found exactly when the table has it. */
  lemma HoldsIff<E(!new)>(env: Env<E>, s: Cache<E>, e: E)
    requires Sound(env, s)
    ensures e in Live(s) ==> Holds(env, s, e)
    ensures e != env.blank ==> (Holds(env, s, e) <==> e in s.table)
  {
    if e in Live(s) {
      var i :| 0 <= i < |s.table| && !s.collected[i] && s.table[i] == e;
      assert AtHome(env, s, i);
    }
    if e != env.blank && e in s.table { NotHeldContra(env, s, e); }
  }

  lemma NotHeldContra<E(!new)>(env: Env<E>, s: Cache<E>, e: E)
    requires Placed(env, s) && e != env.blank && e in s.table
    ensures Holds(env, s, e)
  {
    if !Holds(env, s, e) { NotHeld(env, s, e); }
  }

  /** Marking an element for erasure only takes it out of the live elements: it is still found. */
  lemma ErasedKeeps<E(!new)>(env: Env<E>, s: Cache<E>, e: E)
    requires Sound(env, s)
    ensures var s' := Erased(env, s, e);
            Sound(env, s') && Live(s) - {e} <= Live(s') <= Live(s) && forall x :: Holds(env, s', x) == Holds(env, s, x)
  {
    var s' := Erased(env, s, e);
    forall i | 0 <= i < |s'.table|
      ensures AtHome(env, s', i)
    {
      assert AtHome(env, s, i);
    }
    forall x | x in Live(s) - {e}
      ensures x in Live(s')
    {
      var i :| 0 <= i < |s.table| && !s.collected[i] && s.table[i] == x;
      assert !s'.collected[i] && s'.table[i] == x;
    }
  }

  /** An element other than the blank one is no longer live after that, and any other still is. */
  lemma ErasedExact<E(!new)>(env: Env<E>, s: Cache<E>, e: E)
    requires Sound(env, s) && e != env.blank
    ensures Live(Erased(env, s, e)) == Live(s) - {e}
  {
    var s' := Erased(env, s, e);
    ErasedKeeps(env, s, e);
    if e in Live(s') {
      assert Holds(env, s, e) by { HoldsIff(env, s, e); }
    }
  }

  // ------------------------------------------------------------ epochs

  /** After a check that scanned, the next scan is at least a sixteenth of an epoch away, and no later than the epoch
      can fill up; after ageing it is a whole epoch away. In between each check only counts down. */
  lemma ScansApart<E>(s: Cache<E>)
    requires Shaped(s) && s.epochSize > 0
    ensures var s' := EpochChecked(s);
            && (s.counter > 0 ==> s' == s.(counter := s.counter - 1))
            && (s.counter == 0 ==> s'.counter >= 1 && 16 * s'.counter > s.epochSize - 16)
            && (s.counter == 0 && KeptIn(s, true) >= s.epochSize ==> s'.counter == s.epochSize && KeptIn(s', true) == 0)
            && (s.counter == 0 && KeptIn(s, true) < s.epochSize ==>
                  s'.counter >= s.epochSize - KeptIn(s, true)
                  && (16 * s'.counter > s.epochSize && s'.counter > 1 ==> s'.counter == s.epochSize - KeptIn(s, true)))
  {
    if s.counter == 0 && KeptIn(s, true) >= s.epochSize { NoneRecent(Aged(s).collected, Aged(s).recent, |s.table|); }
  }

  lemma {:induction false} NoneRecent(collected: seq<bool>, recent: seq<bool>, n: nat)
    requires n <= |collected| == |recent| && forall i :: 0 <= i < |recent| ==> !recent[i]
    ensures Kept(collected, recent, true, n) == 0
  {
    if n > 0 { NoneRecent(collected, recent, n - 1); }
  }

  /** An epoch check either changes no flag, or gives up exactly what was not of the latest epoch. */
  lemma EpochCheckedKeeps<E(!new)>(env: Env<E>, s: Cache<E>)
    requires Sound(env, s)
    ensures var s' := EpochChecked(s);
            && Sound(env, s') && s'.table == s.table && s'.epochSize == s.epochSize && s'.depthLimit == s.depthLimit
            && (if s.counter == 0 && KeptIn(s, true) >= s.epochSize
                then Live(s') == (set i | 0 <= i < |s.table| && !s.collected[i] && s.recent[i] :: s.table[i])
                else Live(s') == Live(s) && s'.recent == s.recent)
  {
    var s' := EpochChecked(s);
    forall i | 0 <= i < |s'.table|
      ensures AtHome(env, s', i)
    {
      assert AtHome(env, s, i);
    }
  }

  function Counts(collected: bool, recent: bool, epoch: bool): nat {
    if !collected && recent == epoch then 1 else 0
  }

  lemma {:induction false} KeptUpdate(collected: seq<bool>, recent: seq<bool>, i: nat, c: bool, r: bool, epoch: bool,
                                      n: nat)
    requires i < n <= |collected| == |recent|
    ensures Kept(collected[i := c], recent[i := r], epoch, n) ==
            Kept(collected, recent, epoch, n) - Counts(collected[i], recent[i], epoch) + Counts(c, r, epoch)
  {
    if i == n - 1 { KeptSame(collected, recent, i, c, r, epoch, n - 1); }
        else { KeptUpdate(collected, recent, i, c, r, epoch, n - 1); }
  }

  lemma {:induction false} KeptSame(collected: seq<bool>, recent: seq<bool>, i: nat, c: bool, r: bool, epoch: bool,
                                    n: nat)
    requires n <= i < |collected| == |recent|
    ensures Kept(collected[i := c], recent[i := r], epoch, n) == Kept(collected, recent, epoch, n)
  {
    if n > 0 { KeptSame(collected, recent, i, c, r, epoch, n - 1); }
  }

  lemma PutCounts<E>(s: Cache<E>, loc: nat, e: E, epoch: bool, w: bool)
    requires Shaped(s) && loc < |s.table|
    ensures KeptIn(Put(s, loc, e, epoch), w) ==
              KeptIn(s, w) - Counts(s.collected[loc], s.recent[loc], w) + Counts(false, epoch, w)
  {
    KeptUpdate(s.collected, s.recent, loc, false, epoch, w, |s.table|);
  }

  lemma SwappedCounts<E>(s: Cache<E>, loc: nat, e: E, epoch: bool, w: bool)
    requires Shaped(s) && loc < |s.table| && !s.collected[loc]
    ensures KeptIn(Swapped(s, loc, e, epoch), w) + Counts(false, s.recent[loc], w) ==
              KeptIn(s, w) + Counts(false, epoch, w)
  {
    KeptUpdate(s.collected, s.recent, loc, false, epoch, w, |s.table|);
    assert s.collected[loc := false] == s.collected;
  }

  /** Placing an element adds at most that one element to its epoch and none to the other. */
  lemma {:induction false} PlaceCounts<E>(env: Env<E>, s: Cache<E>, e: E, lastLoc: int, epoch: bool, depth: nat,
                                          w: bool)
    requires Shaped(s)
    ensures var s' := Place(env, s, e, lastLoc, epoch, depth);
            Shaped(s') && KeptIn(s', w) <= KeptIn(s, w) + Counts(false, epoch, w) && SameSettings(s, s')
    decreases depth
  {
    hide Kept, Locs, Find, FirstWhere;
    if depth > 0 {
      var locs := Locs(env, |s.table|, e);
      var k := FirstWhere(s.collected, locs, 0);
      if k < 8 {
        PutCounts(s, locs[k], e, epoch, w);
      } else {
        var loc := SwapLoc(env, s, e, lastLoc);
        SwappedCounts(s, loc, e, epoch, w);
        PlaceCounts(env, Swapped(s, loc, e, epoch), s.table[loc], loc, s.recent[loc], depth - 1, w);
      }
    }
  }

  ghost predicate SameSettings<E>(s: Cache<E>, s': Cache<E>) {
    |s'.table| == |s.table| && s'.counter == s.counter && s'.epochSize == s.epochSize && s'.depthLimit == s.depthLimit
  }

  lemma EnteredCounts<E>(env: Env<E>, s: Cache<E>, e: E, w: bool)
    requires Shaped(s)
    ensures var s' := Entered(env, s, e);
            Shaped(s') && KeptIn(s', w) <= KeptIn(s, w) + Counts(false, true, w) && SameSettings(s, s')
  {
    var locs := Locs(env, |s.table|, e);
    var k := FirstHolding(s.table, locs, e, 0);
    if k < 8 { PutCounts(s, locs[k], e, true, w); } else { PlaceCounts(env, s, e, -1, true, s.depthLimit, w); }
  }

  /** What one epoch may grow to: the epoch size, the coarseness of the heuristic, and the element that triggers the
      scan. */
  function EpochCap(epochSize: nat): nat { epochSize + Max(1, epochSize / 16) + 1 }

  /** The heuristic counter is always low enough to notice in time that the latest epoch is full. */
  ghost predicate Bounded<E>(s: Cache<E>) {
    Shaped(s) && KeptIn(s, true) + s.counter <= EpochCap(s.epochSize) && KeptIn(s, false) <= EpochCap(s.epochSize)
  }

  lemma {:induction false} AgedCounts(collected: seq<bool>, recent: seq<bool>, collected': seq<bool>,
                                      recent': seq<bool>, n: nat)
    requires n <= |collected| == |recent| == |collected'| == |recent'|
    requires forall i :: 0 <= i < n ==> collected'[i] == (collected[i] || !recent[i]) && !recent'[i]
    ensures Kept(collected', recent', true, n) == 0
            && Kept(collected', recent', false, n) == Kept(collected, recent, true, n)
  {
    if n > 0 { AgedCounts(collected, recent, collected', recent', n - 1); }
  }

  lemma EpochCheckedBounded<E>(s: Cache<E>)
    requires Bounded(s)
    ensures var s' := EpochChecked(s);
            && Shaped(s') && KeptIn(s', true) + s'.counter < EpochCap(s.epochSize)
               && KeptIn(s', false) <= EpochCap(s.epochSize)
            && s'.epochSize == s.epochSize && |s'.table| == |s.table|
  {
    if s.counter == 0 && KeptIn(s, true) >= s.epochSize {
      AgedCounts(s.collected, s.recent, Aged(s).collected, Aged(s).recent, |s.table|);
    }
  }

  // ------------------------------------------------------------ runs

  datatype Op<E> = Insert(e: E) | Contains(e: E, erase: bool)

  function Step<E(==)>(env: Env<E>, s: Cache<E>, op: Op<E>): Cache<E>
    requires Shaped(s)
  {
    match op
    case Insert(e) => Inserted(env, s, e)
    case Contains(e, erase) => if erase then Erased(env, s, e) else s
  }

  ghost predicate IsRun<E>(env: Env<E>, depthLimit: nat, ops: seq<Op<E>>, states: seq<Cache<E>>) {
    && |states| == |ops| + 1 && states[0] == Fresh(env, depthLimit)
    && forall i :: 0 <= i < |ops| ==> Shaped(states[i]) && states[i + 1] == Step(env, states[i], ops[i])
  }

  lemma {:induction false} FreshKept(collected: seq<bool>, recent: seq<bool>, w: bool, n: nat)
    requires n <= |collected| == |recent| && forall i :: 0 <= i < n ==> collected[i]
    ensures Kept(collected, recent, w, n) == 0
  {
    if n > 0 { FreshKept(collected, recent, w, n - 1); }
  }

  lemma FreshGood<E(!new)>(env: Env<E>, depthLimit: nat)
    ensures var s := Fresh(env, depthLimit); Sound(env, s) && Bounded(s) && Live(s) == {}
  {
    var s := Fresh(env, depthLimit);
    forall i | 0 <= i < |s.table|
      ensures AtHome(env, s, i)
    {
    }
    FreshKept(s.collected, s.recent, true, |s.table|);
    FreshKept(s.collected, s.recent, false, |s.table|);
  }

  /** A lookup changes nothing, or, if it erases, takes that element out of the live ones. An insertion leaves the
      element live, unless a chain of full length brought it back to hand. */
  lemma StepOutcome<E(!new)>(env: Env<E>, s: Cache<E>, op: Op<E>)
    requires Sound(env, s)
    ensures Shaped(Step(env, s, op))
    ensures op.Contains? && !op.erase ==> Step(env, s, op) == s
    ensures op.Contains? && op.erase && op.e != env.blank ==> Live(Step(env, s, op)) == Live(s) - {op.e}
    ensures op.Insert? ==>
              op.e in Live(Step(env, s, op)) || ComesBack(env, EpochChecked(s), op.e)
  {
    hide Single, AtHome, Live, Entered, EpochChecked, ComesBack;
    if op.Contains? {
      if op.erase && op.e != env.blank { ErasedExact(env, s, op.e); }
    } else {
      EpochCheckedKeeps(env, s);
      EnteredExact(env, EpochChecked(s), op.e);
    }
  }

  /** A chain of swaps of full length brings the element back to hand in the end. */
  ghost predicate ComesBack<E>(env: Env<E>, s: Cache<E>, e: E) {
    Shaped(s) && var c := Hands(env, s, e, -1, true, s.depthLimit); |c| == s.depthLimit + 1 && c[s.depthLimit] == e
  }

  lemma EnteredExact<E(!new)>(env: Env<E>, s: Cache<E>, e: E)
    requires Sound(env, s)
    ensures Shaped(Entered(env, s, e)) && (e in Live(Entered(env, s, e)) || ComesBack(env, s, e))
  {
    hide Single, AtHome, Live, Hands, Place, Locs;
    var locs := Locs(env, |s.table|, e);
    var k := FirstHolding(s.table, locs, e, 0);
    if k < 8 {
      LivePut(s, locs[k], e, true);
    } else {
      NotHeld(env, s, e);
      PlaceExact(env, s, e, -1, true, s.depthLimit);
    }
  }

  lemma StepGood<E(!new)>(env: Env<E>, s: Cache<E>, op: Op<E>)
    requires Sound(env, s) && Bounded(s)
    ensures var s' := Step(env, s, op);
            Sound(env, s') && Bounded(s') && |s'.table| == |s.table| && s'.epochSize == s.epochSize
  {
    match op
    case Insert(e) =>
      EpochCheckedKeeps(env, s);
      EpochCheckedBounded(s);
      EnteredKeeps(env, EpochChecked(s), e);
      EnteredCounts(env, EpochChecked(s), e, true);
      EnteredCounts(env, EpochChecked(s), e, false);
    case Contains(e, erase) =>
      if erase {
        ErasedKeeps(env, s, e);
        ErasedCounts(env, s, e, true);
        ErasedCounts(env, s, e, false);
      }
  }

  lemma ErasedCounts<E>(env: Env<E>, s: Cache<E>, e: E, w: bool)
    requires Shaped(s)
    ensures var s' := Erased(env, s, e); Shaped(s') && KeptIn(s', w) <= KeptIn(s, w)
  {
    var locs := Locs(env, |s.table|, e);
    var k := FirstHolding(s.table, locs, e, 0);
    if k < 8 {
      KeptUpdate(s.collected, s.recent, locs[k], true, s.recent[locs[k]], w, |s.table|);
      assert s.recent[locs[k] := s.recent[locs[k]]] == s.recent;
    }
  }

  /** Every state of every run from setup: live elements are at home and found, nothing but the blank
      element is stored twice, and neither epoch outgrows its cap. */
  lemma {:induction false} RunGood<E(!new)>(env: Env<E>, depthLimit: nat, ops: seq<Op<E>>, states: seq<Cache<E>>,
                                     i: nat)
    requires IsRun(env, depthLimit, ops, states) && i < |states|
    ensures Sound(env, states[i]) && Bounded(states[i])
  {
    if i == 0 {
      FreshGood(env, depthLimit);
    } else {
      RunGood(env, depthLimit, ops, states, i - 1);
      StepGood(env, states[i - 1], ops[i - 1]);
    }
  }

  lemma {:induction false} PlaceContents<E>(env: Env<E>, s: Cache<E>, e: E, lastLoc: int, epoch: bool, depth: nat, x: E)
    requires Shaped(s) && x in Place(env, s, e, lastLoc, epoch, depth).table
    ensures x in s.table || x == e
    decreases depth
  {
    hide Locs, Find, FirstWhere;
    if depth > 0 {
      var locs := Locs(env, |s.table|, e);
      if FirstWhere(s.collected, locs, 0) == 8 {
        var loc := SwapLoc(env, s, e, lastLoc);
        PlaceContents(env, Swapped(s, loc, e, epoch), s.table[loc], loc, s.recent[loc], depth - 1, x);
      }
    }
  }

  /** No false positives: what contains finds was inserted earlier in the run, or is the blank element. */
  lemma {:induction false} RunOnlyInserted<E(!new)>(env: Env<E>, depthLimit: nat, ops: seq<Op<E>>,
                                             states: seq<Cache<E>>, i: nat, x: E)
    requires IsRun(env, depthLimit, ops, states) && i < |states| && Shaped(states[i])
    requires Holds(env, states[i], x) && x != env.blank
    ensures Insert(x) in ops[..i]
  {
    TableOnlyInserted(env, depthLimit, ops, states, i, x);
  }

  lemma {:induction false} TableOnlyInserted<E(!new)>(env: Env<E>, depthLimit: nat, ops: seq<Op<E>>,
                                               states: seq<Cache<E>>, i: nat, x: E)
    requires IsRun(env, depthLimit, ops, states) && i < |states|
    requires x in states[i].table && x != env.blank
    ensures Insert(x) in ops[..i]
  {
    if i > 0 {
      var s := states[i - 1];
      assert ops[..i] == ops[..i - 1] + [ops[i - 1]];
      StepContents(env, s, ops[i - 1], x);
      if x in s.table { TableOnlyInserted(env, depthLimit, ops, states, i - 1, x); }
    }
  }

  lemma StepContents<E>(env: Env<E>, s: Cache<E>, op: Op<E>, x: E)
    requires Shaped(s) && x in Step(env, s, op).table
    ensures x in s.table || op == Insert(x)
  {
    if op.Insert? {
      var s1 := EpochChecked(s);
      if !Holds(env, s1, op.e) { PlaceContents(env, s1, op.e, -1, true, s1.depthLimit, x); }
    }
  }

  // ------------------------------------------------------------ the classes

  class BitPackedAtomicFlags {
    var mem: array<bv8>

    ghost predicate Represents(flags: seq<bool>)
      reads this, mem
    {
      |flags| <= 8 * mem.Length && forall i :: 0 <= i < |flags| ==> Bit(mem[i / 8], i % 8) == flags[i]
    }

    /** All entries start out marked as collected. */
    constructor (size: nat)
      ensures fresh(mem) && Represents(seq(size, _ => true))
    {
      var bytes := (size + 7) / 8;
      mem := new bv8[bytes](_ => 0xFF);
      new;
      forall i | 0 <= i < size
        ensures Bit(mem[i / 8], i % 8)
      {
        AllSet(i % 8);
      }
    }

    method BitSet(s: nat, ghost flags: seq<bool>)
      requires Represents(flags) && s < |flags|
      modifies mem
      ensures Represents(flags[s := true])
    {
      hide Bit, Mask;
      mem[s / 8] := mem[s / 8] | Mask(s % 8);
      forall i | 0 <= i < |flags|
        ensures Bit(mem[i / 8], i % 8) == flags[s := true][i]
      {
        SetBit(old(mem[s / 8]), s % 8, i % 8);
      }
    }

    method BitUnset(s: nat, ghost flags: seq<bool>)
      requires Represents(flags) && s < |flags|
      modifies mem
      ensures Represents(flags[s := false])
    {
      hide Bit, Mask;
      mem[s / 8] := mem[s / 8] & !Mask(s % 8);
      forall i | 0 <= i < |flags|
        ensures Bit(mem[i / 8], i % 8) == flags[s := false][i]
      {
        ClearBit(old(mem[s / 8]), s % 8, i % 8);
      }
    }

    method BitIsSet(s: nat, ghost flags: seq<bool>) returns (b: bool)
      requires Represents(flags) && s < |flags|
      ensures b == flags[s]
    {
      b := Mask(s % 8) & mem[s / 8] != 0;
      AndCommutes(Mask(s % 8), mem[s / 8]);
    }
  }

  lemma AndCommutes(a: bv8, b: bv8)
    ensures a & b == b & a
  {
  }

  class CuckooCache<E(==)> {
    const env: Env<E>
    const table: array<E>
    const flags: BitPackedAtomicFlags
    const epochFlags: array<bool>
    var epochHeuristicCounter: nat
    const epochSize: nat
    const depthLimit: nat
    ghost var collected: seq<bool>

    ghost predicate Valid()
      reads this, flags, flags.mem
    {
      && table.Length == epochFlags.Length == |collected| > 0 && flags.Represents(collected)
      && (table as object) != (epochFlags as object) && (table as object) != (flags.mem as object)
         && (epochFlags as object) != (flags.mem as object)
    }

    ghost function Value(): (s: Cache<E>)
      requires Valid()
      reads this, table, flags, flags.mem, epochFlags
      ensures Shaped(s)
    {
      Cache(table[..], collected, epochFlags[..], epochHeuristicCounter, epochSize, depthLimit)
    }

    /** Default construction followed by setup, with log2 taken exactly. */
    constructor (env: Env<E>, newSize: nat)
      ensures Valid() && fresh(table) && fresh(epochFlags) && fresh(flags) && fresh(flags.mem)
      ensures this.env == env && depthLimit >= 1 && Value() == Fresh(env, depthLimit)
      ensures Pow2(depthLimit) <= Max(2, newSize) < 2 * Pow2(depthLimit)
    {
      var limit := 1;
      while 2 * Pow2(limit) <= Max(2, newSize)
        invariant limit >= 1 && Pow2(limit) <= Max(2, newSize)
        decreases Max(2, newSize) - Pow2(limit)
      {
        limit := limit + 1;
      }
      var size := Pow2(limit);
      this.env, depthLimit := env, limit;
      table := new E[size](_ => env.blank);
      epochFlags := new bool[size](_ => false);
      flags := new BitPackedAtomicFlags(size);
      epochSize := Max(1, 45 * size % 0x1_0000_0000 / 100);
      epochHeuristicCounter := Max(1, 45 * size % 0x1_0000_0000 / 100);
      collected := seq(size, _ => true);
    }

    method AllowErase(n: nat)
      requires Valid() && n < table.Length
      modifies `collected, flags.mem
      ensures Valid() && Value() == old(Value()).(collected := old(collected)[n := true])
    {
      flags.BitSet(n, collected);
      collected := collected[n := true];
    }

    method PleaseKeep(n: nat)
      requires Valid() && n < table.Length
      modifies `collected, flags.mem
      ensures Valid() && Value() == old(Value()).(collected := old(collected)[n := false])
    {
      flags.BitUnset(n, collected);
      collected := collected[n := false];
    }

    method CountUnused() returns (count: nat)
      requires Valid()
      ensures count == KeptIn(Value(), true)
    {
      count := 0;
      var i := 0;
      while i < table.Length
        invariant 0 <= i <= table.Length
        invariant count == Kept(collected, epochFlags[..], true, i)
      {
        var erased := flags.BitIsSet(i, collected);
        if epochFlags[i] && !erased { count := count + 1; }
        i := i + 1;
      }
    }

    method Age()
      requires Valid()
      modifies this, epochFlags, flags.mem
      ensures Valid() && Value() == Aged(old(Value()))
    {
      ghost var was := Value();
      var i := 0;
      while i < table.Length
        invariant 0 <= i <= table.Length && Valid() && unchanged(table) && epochHeuristicCounter == was.counter
        invariant forall j :: 0 <= j < i ==> collected[j] == (was.collected[j] || !was.recent[j]) && !epochFlags[j]
        invariant forall j :: i <= j < table.Length ==>
                    collected[j] == was.collected[j] && epochFlags[j] == was.recent[j]
      {
        if epochFlags[i] {
          epochFlags[i] := false;
        } else {
          AllowErase(i);
        }
        i := i + 1;
      }
      epochHeuristicCounter := epochSize;
      assert collected == Aged(was).collected && epochFlags[..] == Aged(was).recent;
    }

    method EpochCheck()
      requires Valid()
      modifies this, epochFlags, flags.mem
      ensures Valid() && Value() == EpochChecked(old(Value()))
    {
      if epochHeuristicCounter != 0 {
        epochHeuristicCounter := epochHeuristicCounter - 1;
        return;
      }
      var epochUnusedCount := CountUnused();
      if epochUnusedCount >= epochSize {
        Age();
      } else {
        epochHeuristicCounter := Max(1, Max(epochSize / 16, epochSize - epochUnusedCount));
      }
    }

    method FindHolding(locs: seq<nat>, e: E) returns (k: nat)
      requires |locs| == 8 && forall j :: 0 <= j < 8 ==> locs[j] < table.Length
      ensures k == FirstHolding(table[..], locs, e, 0)
    {
      k := 0;
      while k < 8
        invariant 0 <= k <= 8 && FirstHolding(table[..], locs, e, 0) == FirstHolding(table[..], locs, e, k)
      {
        if table[locs[k]] == e { return; }
        k := k + 1;
      }
    }

    method FindCollected(locs: seq<nat>) returns (k: nat)
      requires Valid() && |locs| == 8 && forall j :: 0 <= j < 8 ==> locs[j] < table.Length
      ensures k == FirstWhere(collected, locs, 0)
    {
      k := 0;
      while k < 8
        invariant 0 <= k <= 8 && FirstWhere(collected, locs, 0) == FirstWhere(collected, locs, k)
      {
        var open := flags.BitIsSet(locs[k], collected);
        if open { return; }
        k := k + 1;
      }
    }

    method Store(loc: nat, e: E, epoch: bool)
      requires Valid() && loc < table.Length
      modifies `collected, table, epochFlags, flags.mem
      ensures Valid() && Value() == Put(old(Value()), loc, e, epoch)
    {
      table[loc] := e;
      PleaseKeep(loc);
      epochFlags[loc] := epoch;
    }

    method Swap(loc: nat, e: E, epoch: bool) returns (evicted: E, lastEpoch: bool)
      requires Valid() && loc < table.Length
      modifies table, epochFlags
      ensures Valid() && Value() == Swapped(old(Value()), loc, e, epoch)
      ensures evicted == old(Value()).table[loc] && lastEpoch == old(Value()).recent[loc]
    {
      evicted := table[loc];
      table[loc] := e;
      lastEpoch := epochFlags[loc];
      epochFlags[loc] := epoch;
    }

    /** The bounded chain of evictions. */
    method Evict(x: E)
      requires Valid()
      modifies `collected, table, epochFlags, flags.mem
      ensures Valid() && Value() == Place(env, old(Value()), x, -1, true, depthLimit)
    {
      hide Kept, Locs, Find, FirstWhere, FirstHolding, BitPackedAtomicFlags.Represents;
      var e, lastEpoch := x, true;
      var lastLoc: int := -1;
      var locs := Locs(env, table.Length, e);
      var depth := 0;
      while depth < depthLimit
        invariant 0 <= depth <= depthLimit && Valid() && locs == Locs(env, table.Length, e)
        invariant Place(env, Value(), e, lastLoc, lastEpoch, depthLimit - depth) ==
                    Place(env, old(Value()), x, -1, true, depthLimit)
      {
        var k := FindCollected(locs);
        if k < 8 {
          Store(locs[k], e, lastEpoch);
          return;
        }
        lastLoc := locs[(1 + Find(locs, lastLoc, 0)) % 8];
        e, lastEpoch := Swap(lastLoc, e, lastEpoch);
        locs := Locs(env, table.Length, e);
        depth := depth + 1;
      }
    }

    method Insert(e: E)
      requires Valid()
      modifies this, table, epochFlags, flags.mem
      ensures Valid() && Value() == Inserted(env, old(Value()), e)
    {
      hide Kept, Locs, FirstHolding, Place;
      EpochCheck();
      var locs := Locs(env, table.Length, e);
      var k := FindHolding(locs, e);
      if k < 8 {
        Store(locs[k], e, true);
      } else {
        Evict(e);
      }
    }

    method Contains(e: E, erase: bool) returns (found: bool)
      requires Valid()
      modifies `collected, flags.mem
      ensures Valid() && found == Holds(env, old(Value()), e)
      ensures Value() == if erase then Erased(env, old(Value()), e) else old(Value())
    {
      var locs := Locs(env, table.Length, e);
      var k := FindHolding(locs, e);
      found := k < 8;
      if found && erase { AllowErase(locs[k]); }
    }
  }
}
