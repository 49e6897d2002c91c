/** The rolling bloom filter: every position holds a two-bit generation number, 0 for unset, and
    the numbers 1, 2, 3 are used in turn. Hash values are a parameter. */
module RollingBloom {

  // ------------------------------------------------------------ bits of a word

  predicate Bit(x: bv64, b: bv64)
    requires b < 64
  {
    (x >> b) & 1 == 1
  }

  function BitOf(g: bool): bv64 { if g then 1 else 0 }

  lemma BitAnd(x: bv64, y: bv64, b: bv64)
    requires b < 64
    ensures Bit(x & y, b) == (Bit(x, b) && Bit(y, b))
  {
  }

  lemma BitOr(x: bv64, y: bv64, b: bv64)
    requires b < 64
    ensures Bit(x | y, b) == (Bit(x, b) || Bit(y, b))
  {
  }

  lemma BitNot(x: bv64, b: bv64)
    requires b < 64
    ensures Bit(!x, b) == !Bit(x, b)
  {
  }

  lemma BitShifted(g: bool, b: bv64, c: bv64)
    requires b < 64 && c < 64
    ensures Bit(BitOf(g) << b, c) == (g && b == c)
  {
  }

  lemma BitOne(b: bv64, c: bv64)
    requires b < 64 && c < 64
    ensures Bit(1 << b, c) == (b == c)
  {
  }

  lemma BitEither(x: bv64, y: bv64, b: bv64)
    requires b < 64
    ensures ((x | y) >> b) & 1 != 0 <==> Bit(x, b) || Bit(y, b)
  {
  }

  /** The bits that differ from g, computed as the source does with a word of equal bits. */
  function Differs(x: bv64, g: bool): bv64 { x ^ (0 - BitOf(g)) }

  lemma DiffersIs(x: bv64, g: bool)
    ensures Differs(x, g) == if g then !x else x
  {
  }

  lemma DiffersBit(x: bv64, g: bool, b: bv64)
    requires b < 64
    ensures Bit(Differs(x, g), b) == (Bit(x, b) != g)
  {
    hide Bit, Differs, BitOf;
    DiffersIs(x, g);
    BitNot(x, b);
  }

  lemma AndEither(p: bv64, x: bv64, y: bv64, b: bv64)
    requires b < 64
    ensures Bit(p & (x | y), b) == (Bit(p, b) && (Bit(x, b) || Bit(y, b)))
  {
    hide Bit;
    BitAnd(p, x | y, b);
    BitOr(x, y, b);
  }

  lemma AndDiffers(p: bv64, p1: bv64, p2: bv64, g1: bool, g2: bool, b: bv64, x: bv64, y: bv64)
    requires b < 64 && Bit(x, b) == (Bit(p1, b) != g1) && Bit(y, b) == (Bit(p2, b) != g2)
    ensures Bit(p & (x | y), b) == (Bit(p, b) && !(Bit(p1, b) == g1 && Bit(p2, b) == g2))
  {
    hide Bit;
    AndEither(p, x, y, b);
  }

  /** The bit-parallel wipe clears a bit exactly where both words of the pair show the wiped generation. */
  function Wipe(p: bv64, p1: bv64, p2: bv64, g1: bool, g2: bool): bv64 {
    p & (Differs(p1, g1) | Differs(p2, g2))
  }

  lemma WipeBit(p: bv64, p1: bv64, p2: bv64, g1: bool, g2: bool, b: bv64)
    requires b < 64
    ensures Bit(Wipe(p, p1, p2, g1, g2), b) == (Bit(p, b) && !(Bit(p1, b) == g1 && Bit(p2, b) == g2))
  {
    hide Bit, Differs;
    DiffersBit(p1, g1, b);
    DiffersBit(p2, g2, b);
    AndDiffers(p, p1, p2, g1, g2, b, Differs(p1, g1), Differs(p2, g2));
  }

  function SetTo(x: bv64, g: bool, b: bv64): bv64
    requires b < 64
  {
    (x & !(1 << b)) | (BitOf(g) << b)
  }

  lemma Cleared(x: bv64, b: bv64, c: bv64)
    requires b < 64 && c < 64
    ensures Bit(x & !(1 << b), c) == (Bit(x, c) && b != c)
  {
    hide Bit;
    BitAnd(x, !(1 << b), c);
    BitNot(1 << b, c);
    BitOne(b, c);
  }

  lemma SetToBit(x: bv64, g: bool, b: bv64, c: bv64)
    requires b < 64 && c < 64
    ensures Bit(SetTo(x, g, b), c) == if b == c then g else Bit(x, c)
  {
    hide Bit, BitOf;
    Cleared(x, b, c);
    BitOr(x & !(1 << b), BitOf(g) << b, c);
    BitShifted(g, b, c);
  }

  // ------------------------------------------------------------ cells

  type Key = seq<nat>

  /** A position: bit `bit` of the words 2 * word and 2 * word + 1. */
  datatype Cell = Cell(word: nat, bit: bv64)

  ghost predicate CellIn(c: Cell, size: nat) { c.bit < 64 && 2 * c.word + 1 < size }

  function Generation(low: bool, high: bool): nat { (if low then 1 else 0) + (if high then 2 else 0) }

  function Gen(data: seq<bv64>, c: Cell): nat
    requires CellIn(c, |data|)
  {
    Generation(Bit(data[2 * c.word], c.bit), Bit(data[2 * c.word + 1], c.bit))
  }

  predicate Low(g: nat) { g % 2 == 1 }
  predicate High(g: nat) { g / 2 == 1 }

  function Marked(data: seq<bv64>, c: Cell, g: nat): seq<bv64>
    requires CellIn(c, |data|)
  {
    data[2 * c.word := SetTo(data[2 * c.word], Low(g), c.bit)]
        [2 * c.word + 1 := SetTo(data[2 * c.word + 1], High(g), c.bit)]
  }

  lemma MarkedGen(data: seq<bv64>, c: Cell, g: nat, d: Cell)
    requires CellIn(c, |data|) && CellIn(d, |data|) && g <= 3
    ensures Gen(Marked(data, c, g), d) == if c == d then g else Gen(data, d)
  {
    hide Bit, SetTo;
    SetToBit(data[2 * c.word], Low(g), c.bit, d.bit);
    SetToBit(data[2 * c.word + 1], High(g), c.bit, d.bit);
  }

  function Wiped(data: seq<bv64>, g: nat): seq<bv64>
    requires |data| % 2 == 0
  {
    seq(|data|, i requires 0 <= i < |data| => Wipe(data[i], data[i / 2 * 2], data[i / 2 * 2 + 1], Low(g), High(g)))
  }

  lemma WipedLength(data: seq<bv64>, g: nat)
    requires |data| % 2 == 0
    ensures |Wiped(data, g)| == |data|
  {
  }

  lemma WipedAt(data: seq<bv64>, g: nat, q: nat)
    requires |data| % 2 == 0 && q % 2 == 0 && q + 1 < |data|
    ensures |Wiped(data, g)| == |data|
    ensures Wiped(data, g)[q] == Wipe(data[q], data[q], data[q + 1], Low(g), High(g))
    ensures Wiped(data, g)[q + 1] == Wipe(data[q + 1], data[q], data[q + 1], Low(g), High(g))
  {
    hide Wipe;
    assert q / 2 * 2 == q && (q + 1) / 2 * 2 == q;
  }

  /** Wiping a generation unsets exactly the positions of that generation. */
  lemma WipedGen(data: seq<bv64>, g: nat, c: Cell)
    requires |data| % 2 == 0 && CellIn(c, |data|) && 1 <= g <= 3
    ensures Gen(Wiped(data, g), c) == if Gen(data, c) == g then 0 else Gen(data, c)
  {
    hide Bit, Wipe, Wiped;
    WipedAt(data, g, 2 * c.word);
    var p1, p2 := data[2 * c.word], data[2 * c.word + 1];
    WipeBit(p1, p1, p2, Low(g), High(g), c.bit);
    WipeBit(p2, p1, p2, Low(g), High(g), c.bit);
  }

  // ------------------------------------------------------------ the filter

  datatype Params = Params(hash: (nat, nat, Key) -> bv32, funcs: nat, perGeneration: nat)

  datatype Filter = Filter(data: seq<bv64>, generation: nat, entries: nat, tweak: nat)

  ghost predicate Shaped(f: Filter) {
    |f.data| >= 2 && |f.data| % 2 == 0 && 1 <= f.generation <= 3
  }

  lemma SixBits(h: bv32)
    ensures (h & 0x3F) as bv64 < 64
  {
  }

  /** The position a hash value selects. */
  function CellAt(h: bv32, size: nat): (c: Cell)
    requires size >= 2 && size % 2 == 0
    ensures CellIn(c, size)
  {
    SixBits(h);
    Cell((h >> 6) as nat % size / 2, (h & 0x3F) as bv64)
  }

  function CellOf(p: Params, size: nat, tweak: nat, key: Key, n: nat): (c: Cell)
    requires size >= 2 && size % 2 == 0
    ensures CellIn(c, size)
  {
    CellAt(p.hash(n, tweak, key), size)
  }

  function Next(g: nat): nat { if g + 1 == 4 then 1 else g + 1 }

  function Rolled(p: Params, f: Filter): Filter
    requires Shaped(f)
  {
    if f.entries == p.perGeneration
    then f.(data := Wiped(f.data, Next(f.generation)), generation := Next(f.generation), entries := 0)
    else f
  }

  function MarkedAll(p: Params, f: Filter, key: Key, n: nat): (data: seq<bv64>)
    requires Shaped(f)
    ensures |data| == |f.data|
  {
    if n == 0 then f.data
        else Marked(MarkedAll(p, f, key, n - 1), CellOf(p, |f.data|, f.tweak, key, n - 1), f.generation)
  }

  function Inserted(p: Params, f: Filter, key: Key): (f': Filter)
    requires Shaped(f)
    ensures Shaped(f') && |f'.data| == |f.data| && f'.tweak == f.tweak
  {
    var f1 := Rolled(p, f);
    f1.(entries := f1.entries + 1, data := MarkedAll(p, f1, key, p.funcs))
  }

  predicate Contained(p: Params, f: Filter, key: Key)
    requires Shaped(f)
  {
    forall n :: 0 <= n < p.funcs ==> Gen(f.data, CellOf(p, |f.data|, f.tweak, key, n)) != 0
  }

  function Cleaned(size: nat, tweak: nat): Filter { Filter(seq(size, _ => 0), 1, 0, tweak) }

  // ------------------------------------------------------------ the reference: the keys themselves

  ghost predicate Touches(p: Params, size: nat, tweak: nat, key: Key, n: nat, c: Cell)
    requires size >= 2 && size % 2 == 0
  {
    exists k :: 0 <= k < n && CellOf(p, size, tweak, key, k) == c
  }

  /** The last of the keys that selects a position, or -1. */
  ghost function LastTouch(p: Params, size: nat, tweak: nat, keys: seq<Key>, c: Cell): (j: int)
    requires size >= 2 && size % 2 == 0
    ensures -1 <= j < |keys|
    decreases |keys|
  {
    if keys == [] then -1
    else if Touches(p, size, tweak, keys[|keys| - 1], p.funcs, c) then |keys| - 1
    else LastTouch(p, size, tweak, keys[..|keys| - 1], c)
  }

  lemma {:induction false} LastTouchAfter(p: Params, size: nat, tweak: nat, keys: seq<Key>, c: Cell, j: nat)
    requires size >= 2 && size % 2 == 0 && j < |keys| && Touches(p, size, tweak, keys[j], p.funcs, c)
    ensures LastTouch(p, size, tweak, keys, c) >= j
    decreases |keys|
  {
    if j < |keys| - 1 { LastTouchAfter(p, size, tweak, keys[..|keys| - 1], c, j); }
  }

  /** How many generations ago the d-th last key was inserted, when it is one of the last three. */
  function Age(entries: nat, perGeneration: nat, d: nat): nat {
    if d <= entries then 0 else if d <= entries + perGeneration then 1 else 2
  }

  function Back(g: nat, age: nat): int { if age < g then g - age else g - age + 3 }

  /** How many of the last keys are still remembered: this generation's and two full ones. */
  function Remembered(p: Params, f: Filter): nat { f.entries + 2 * p.perGeneration }

  /** A position holds the generation of the last key that selects it, if that key is remembered. */
  ghost predicate CellExact(p: Params, f: Filter, keys: seq<Key>, c: Cell)
    requires Shaped(f) && CellIn(c, |f.data|)
  {
    var j := LastTouch(p, |f.data|, f.tweak, keys, c);
    Gen(f.data, c) == if j < 0 || |keys| - j > Remembered(p, f) then 0
                      else Back(f.generation, Age(f.entries, p.perGeneration, |keys| - j))
  }

  ghost predicate Exact(p: Params, f: Filter, keys: seq<Key>) {
    Shaped(f) && forall c {:trigger CellExact(p, f, keys, c)} :: CellIn(c, |f.data|) ==> CellExact(p, f, keys, c)
  }

  lemma RolledExact(p: Params, f: Filter, keys: seq<Key>)
    requires Exact(p, f, keys)
    ensures Exact(p, Rolled(p, f), keys)
  {
    hide CellExact;
    var f' := Rolled(p, f);
    forall c | CellIn(c, |f'.data|)
      ensures CellExact(p, f', keys, c)
    {
      assert CellExact(p, f, keys, c);
      if f.entries == p.perGeneration { WipedExact(p, f, keys, c); }
    }
  }

  lemma WipedExact(p: Params, f: Filter, keys: seq<Key>, c: Cell)
    requires Shaped(f) && CellIn(c, |f.data|) && f.entries == p.perGeneration && CellExact(p, f, keys, c)
    ensures CellExact(p, Rolled(p, f), keys, c)
  {
    hide Gen, LastTouch, Wiped;
    WipedLength(f.data, Next(f.generation));
    WipedGen(f.data, Next(f.generation), c);
  }

  lemma {:induction false} MarkedAllGen(p: Params, f: Filter, key: Key, n: nat, c: Cell)
    requires Shaped(f) && CellIn(c, |f.data|)
    ensures Gen(MarkedAll(p, f, key, n), c) ==
              if Touches(p, |f.data|, f.tweak, key, n, c) then f.generation else Gen(f.data, c)
  {
    hide Gen, Marked, CellOf;
    if n > 0 {
      MarkedAllGen(p, f, key, n - 1, c);
      MarkedGen(MarkedAll(p, f, key, n - 1), CellOf(p, |f.data|, f.tweak, key, n - 1), f.generation, c);
    }
  }

  lemma InsertedExact(p: Params, f: Filter, keys: seq<Key>, key: Key)
    requires Exact(p, f, keys)
    ensures Exact(p, Inserted(p, f, key), keys + [key])
  {
    var f1, f', keys' := Rolled(p, f), Inserted(p, f, key), keys + [key];
    RolledExact(p, f, keys);
    forall c | CellIn(c, |f'.data|)
      ensures CellExact(p, f', keys', c)
    {
      hide Gen, Touches, MarkedAll, Rolled;
      assert CellExact(p, f1, keys, c);
      MarkedAllGen(p, f1, key, p.funcs, c);
      assert keys'[..|keys|] == keys;
    }
  }

  function After(p: Params, f: Filter, keys: seq<Key>): (f': Filter)
    requires Shaped(f)
    ensures Shaped(f') && |f'.data| == |f.data| && f'.tweak == f.tweak
    decreases |keys|
  {
    if keys == [] then f else Inserted(p, After(p, f, keys[..|keys| - 1]), keys[|keys| - 1])
  }

  lemma CleanedExact(p: Params, size: nat, tweak: nat)
    requires size >= 2 && size % 2 == 0
    ensures Exact(p, Cleaned(size, tweak), [])
  {
    var f := Cleaned(size, tweak);
    forall c | CellIn(c, |f.data|)
      ensures CellExact(p, f, [], c)
    {
      ZeroBit(c.bit);
    }
  }

  lemma ZeroBit(b: bv64)
    requires b < 64
    ensures !Bit(0, b)
  {
  }

  /** After any keys since the last reset, every position is exactly what the keys say. */
  lemma {:induction false} RunExact(p: Params, size: nat, tweak: nat, keys: seq<Key>)
    requires size >= 2 && size % 2 == 0
    ensures Exact(p, After(p, Cleaned(size, tweak), keys), keys)
    decreases |keys|
  {
    if keys == [] {
      CleanedExact(p, size, tweak);
    } else {
      var front, last := keys[..|keys| - 1], keys[|keys| - 1];
      RunExact(p, size, tweak, front);
      InsertedExact(p, After(p, Cleaned(size, tweak), front), front, last);
      assert front + [last] == keys;
    }
  }

  /** A key is contained if and only if each of its positions was selected by one of the remembered keys. */
  lemma ContainedIff(p: Params, f: Filter, keys: seq<Key>, key: Key)
    requires Exact(p, f, keys)
    ensures Contained(p, f, key) <==>
            forall n :: 0 <= n < p.funcs ==>
              var j := LastTouch(p, |f.data|, f.tweak, keys, CellOf(p, |f.data|, f.tweak, key, n));
              j >= 0 && |keys| - j <= Remembered(p, f)
  {
    forall n | 0 <= n < p.funcs
      ensures var c := CellOf(p, |f.data|, f.tweak, key, n);
              var j := LastTouch(p, |f.data|, f.tweak, keys, c);
              Gen(f.data, c) != 0 <==> j >= 0 && |keys| - j <= Remembered(p, f)
    {
      hide Gen, LastTouch, CellOf;
      var c := CellOf(p, |f.data|, f.tweak, key, n);
      assert CellExact(p, f, keys, c);
    }
  }

  /** The filter contains every remembered key. */
  lemma RemembersKeys(p: Params, f: Filter, keys: seq<Key>, i: nat)
    requires Exact(p, f, keys) && i < |keys| && |keys| - i <= Remembered(p, f)
    ensures Contained(p, f, keys[i])
  {
    forall n | 0 <= n < p.funcs
      ensures Gen(f.data, CellOf(p, |f.data|, f.tweak, keys[i], n)) != 0
    {
      hide Gen, LastTouch, CellOf;
      var c := CellOf(p, |f.data|, f.tweak, keys[i], n);
      assert CellExact(p, f, keys, c);
      LastTouchAfter(p, |f.data|, f.tweak, keys, c, i);
    }
  }

  /** For every insertion sequence since the last reset, the filter contains each of the last nElements keys. */
  lemma RetainsLast(p: Params, size: nat, tweak: nat, keys: seq<Key>, nElements: nat, i: nat)
    requires size >= 2 && size % 2 == 0 && p.perGeneration == (nElements + 1) / 2
    requires i < |keys| <= i + nElements
    ensures Contained(p, After(p, Cleaned(size, tweak), keys), keys[i])
  {
    RunExact(p, size, tweak, keys);
    RemembersKeys(p, After(p, Cleaned(size, tweak), keys), keys, i);
  }

  // ------------------------------------------------------------ the class

  class CRollingBloomFilter {
    const p: Params
    const data: array<bv64>
    var nGeneration: nat
    var nEntriesThisGeneration: nat
    var nTweak: nat

    ghost predicate Valid()
      reads this
    {
      data.Length >= 2 && data.Length % 2 == 0 && 1 <= nGeneration <= 3
    }

    function Value(): (f: Filter)
      reads this, data
    {
      Filter(data[..], nGeneration, nEntriesThisGeneration, nTweak)
    }

    /** The number of hash functions and of filter bits come from the false-positive rate. */
    constructor (hash: (nat, nat, Key) -> bv32, nElements: nat, nHashFuncs: nat, nFilterBits: nat, tweak: nat)
      requires nFilterBits > 0
      ensures Valid() && fresh(data) && p == Params(hash, nHashFuncs, (nElements + 1) / 2)
              && Value() == Cleaned(data.Length, tweak)
    {
      p := Params(hash, nHashFuncs, (nElements + 1) / 2);
      var size := (nFilterBits + 63) / 64 * 2;
      data := new bv64[size];
      nGeneration, nEntriesThisGeneration, nTweak := 1, 0, tweak;
      new;
      Reset(tweak);
    }

    method Reset(tweak: nat)
      modifies this, data
      ensures nGeneration == 1 && Value() == Cleaned(data.Length, tweak)
    {
      nTweak := tweak;
      nEntriesThisGeneration := 0;
      nGeneration := 1;
      var it := 0;
      while it < data.Length
        invariant 0 <= it <= data.Length && forall k :: 0 <= k < it ==> data[k] == 0
        invariant nGeneration == 1 && nEntriesThisGeneration == 0 && nTweak == tweak
      {
        data[it] := 0;
        it := it + 1;
      }
    }

    /** Clears every cell of the generation that is about to be used again. */
    method WipeGeneration()
      requires Valid()
      modifies data
      ensures data[..] == Wiped(old(data[..]), nGeneration)
    {
      hide Wipe, Wiped;
      ghost var was, goal := data[..], Wiped(data[..], nGeneration);
      WipedLength(was, nGeneration);
      var q := 0;
      while q < data.Length
        invariant 0 <= q <= data.Length && q % 2 == 0
        invariant data[..q] == goal[..q] && data[q..] == was[q..]
      {
        WipedAt(was, nGeneration, q);
        assert data[q..][0] == was[q] && data[q..][1] == was[q + 1];
        WipePair(q);
        assert goal[..q + 2] == goal[..q] + [goal[q]] + [goal[q + 1]];
        assert was[q + 2..] == was[q..][2..];
        q := q + 2;
      }
    }

    method WipePair(q: nat)
      requires q + 1 < data.Length
      modifies data
      ensures data[..]
              == old(data[..q])
                 + [Wipe(old(data[q]), old(data[q]), old(data[q + 1]), Low(nGeneration), High(nGeneration))]
                 + [Wipe(old(data[q + 1]), old(data[q]), old(data[q + 1]), Low(nGeneration), High(nGeneration))]
                 + old(data[q + 2..])
    {
      hide Wipe;
      var p1, p2 := data[q], data[q + 1];
      data[q] := Wipe(p1, p1, p2, Low(nGeneration), High(nGeneration));
      data[q + 1] := Wipe(p2, p1, p2, Low(nGeneration), High(nGeneration));
    }

    method Mark(c: Cell)
      requires Valid() && CellIn(c, data.Length)
      modifies data
      ensures data[..] == Marked(old(data[..]), c, nGeneration)
    {
      hide SetTo;
      data[2 * c.word] := SetTo(data[2 * c.word], Low(nGeneration), c.bit);
      data[2 * c.word + 1] := SetTo(data[2 * c.word + 1], High(nGeneration), c.bit);
    }

    method Insert(vKey: Key)
      requires Valid()
      modifies this, data
      ensures Valid() && Value() == Inserted(p, old(Value()), vKey)
    {
      hide CellOf, Marked, Wiped;
      if nEntriesThisGeneration == p.perGeneration {
        nEntriesThisGeneration := 0;
        nGeneration := nGeneration + 1;
        if nGeneration == 4 { nGeneration := 1; }
        WipeGeneration();
      }
      ghost var f1 := Value();
      assert f1 == Rolled(p, old(Value()));
      nEntriesThisGeneration := nEntriesThisGeneration + 1;
      var n := 0;
      while n < p.funcs
        invariant 0 <= n <= p.funcs && Valid()
        invariant Value() == f1.(entries := f1.entries + 1, data := MarkedAll(p, f1, vKey, n))
      {
        Mark(CellOf(p, data.Length, nTweak, vKey, n));
        n := n + 1;
      }
    }

    method Contains(vKey: Key) returns (found: bool)
      requires Valid()
      ensures found == Contained(p, Value(), vKey)
    {
      hide CellOf;
      var n := 0;
      while n < p.funcs
        invariant 0 <= n <= p.funcs
        invariant forall k :: 0 <= k < n ==> Gen(data[..], CellOf(p, data.Length, nTweak, vKey, k)) != 0
      {
        var c := CellOf(p, data.Length, nTweak, vKey, n);
        var marked := BitInEither(data[2 * c.word], data[2 * c.word + 1], c.bit);
        assert marked <==> Gen(data[..], c) != 0;
        if !marked { return false; }
        n := n + 1;
      }
      return true;
    }

    static method BitInEither(x: bv64, y: bv64, b: bv64) returns (marked: bool)
      requires b < 64
      ensures marked <==> Bit(x, b) || Bit(y, b)
    {
      marked := ((x | y) >> b) & 1 != 0;
      BitEither(x, y, b);
    }
  }
}
