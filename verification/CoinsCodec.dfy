/** The stored form of a coin set: a header code, a bitmask of the outputs still unspent, and the
    unspent outputs only. */
module CoinsCodec {

  import opened Amounts
  import opened Coins
  import opened Compressor
  import opened Limbs
  import opened Powers

  // ------------------------------------------------------------ bits and bytes

  /** Up to eight flags as a byte, the first flag lowest. */
  function ByteOf(bits: seq<bool>): nat {
    if bits == [] then 0 else (if bits[0] then 1 else 0) + 2 * ByteOf(bits[1..])
  }

  function BitsOf(n: nat, k: nat): (bits: seq<bool>)
    ensures |bits| == k
  {
    if k == 0 then [] else [n % 2 == 1] + BitsOf(n / 2, k - 1)
  }

  /** The flag at a position, false beyond the end. */
  function Flag(bits: seq<bool>, i: nat): bool { i < |bits| && bits[i] }

  lemma {:induction false} BitsBack(bits: seq<bool>, k: nat, i: nat)
    requires |bits| <= k && i < k
    ensures BitsOf(ByteOf(bits), k)[i] == Flag(bits, i)
    decreases k
  {
    var n := ByteOf(bits);
    if bits == [] {
      if i > 0 { BitsBack([], k - 1, i - 1); }
    } else {
      assert n / 2 == ByteOf(bits[1..]) && (n % 2 == 1) == bits[0];
      if i > 0 { BitsBack(bits[1..], k - 1, i - 1); }
    }
  }

  lemma {:induction false} ByteZero(bits: seq<bool>)
    ensures ByteOf(bits) == 0 <==> forall i :: 0 <= i < |bits| ==> !bits[i]
  {
    if bits != [] {
      ByteZero(bits[1..]);
      if ByteOf(bits) == 0 {
        forall i | 0 <= i < |bits|
          ensures !bits[i]
        {
          if i > 0 { assert bits[i] == bits[1..][i - 1]; }
        }
      } else if !bits[0] {
        var j :| 0 <= j < |bits[1..]| && bits[1..][j];
        assert bits[j + 1];
      }
    }
  }

  function Min(a: nat, b: nat): nat { if a < b then a else b }

  /** Flags eight to a byte. */
  function Bytes(bits: seq<bool>): (bs: seq<nat>)
    decreases |bits|
  {
    if bits == [] then [] else [ByteOf(bits[..Min(8, |bits|)])] + Bytes(bits[Min(8, |bits|)..])
  }

  function Unpacked(bs: seq<nat>): (bits: seq<bool>)
    ensures |bits| == 8 * |bs|
  {
    if bs == [] then [] else BitsOf(bs[0], 8) + Unpacked(bs[1..])
  }

  /** Unpacking packed flags gives them back, and false beyond them. */
  lemma {:induction false} UnpackPacked(bits: seq<bool>, i: nat)
    requires i < 8 * |Bytes(bits)|
    ensures Unpacked(Bytes(bits))[i] == Flag(bits, i)
    ensures |bits| <= 8 * |Bytes(bits)|
    decreases |bits|
  {
    if bits != [] {
      var n := Min(8, |bits|);
      var head, tail := bits[..n], bits[n..];
      PackedLength(bits);
      assert Bytes(bits)[1..] == Bytes(tail);
      if i < 8 {
        BitsBack(head, 8, i);
      } else {
        UnpackPacked(tail, i - 8);
      }
    }
  }

  lemma {:induction false} PackedLength(bits: seq<bool>)
    ensures |bits| <= 8 * |Bytes(bits)| < |bits| + 8
    decreases |bits|
  {
    if bits != [] { PackedLength(bits[Min(8, |bits|)..]); }
  }

  /** Without trailing zero bytes. */
  function TrimBytes(bs: seq<nat>): (r: seq<nat>)
    ensures r <= bs && (r != [] ==> r[|r| - 1] != 0) && forall i :: |r| <= i < |bs| ==> bs[i] == 0
  {
    if bs != [] && bs[|bs| - 1] == 0 then TrimBytes(bs[..|bs| - 1]) else bs
  }

  function NonZero(bs: seq<nat>): nat {
    if bs == [] then 0 else (if bs[0] != 0 then 1 else 0) + NonZero(bs[1..])
  }

  lemma {:induction false} UnpackPrefix(bs: seq<nat>, r: seq<nat>, i: nat)
    requires r <= bs && i < 8 * |r|
    ensures Unpacked(r)[i] == Unpacked(bs)[i]
  {
    if i >= 8 { UnpackPrefix(bs[1..], r[1..], i - 8); }
  }

  lemma {:induction false} UnpackZeros(bs: seq<nat>, i: nat)
    requires i < 8 * |bs| && bs[i / 8] == 0
    ensures !Unpacked(bs)[i]
  {
    if i >= 8 {
      assert bs[1..][(i - 8) / 8] == bs[i / 8];
      UnpackZeros(bs[1..], i - 8);
    } else {
      assert bs[0] == ByteOf([]);
      BitsBack([], 8, i);
    }
  }

  /** The mask that is stored: trailing zero bytes are left out, and reading it back still gives every flag. */
  function MaskOf(bits: seq<bool>): seq<nat> { TrimBytes(Bytes(bits)) }

  lemma MaskBack(bits: seq<bool>, i: nat)
    ensures Flag(Unpacked(MaskOf(bits)), i) == Flag(bits, i)
  {
    var bs, r := Bytes(bits), MaskOf(bits);
    PackedLength(bits);
    if i < 8 * |bs| {
      UnpackPacked(bits, i);
      if i < 8 * |r| { UnpackPrefix(bs, r, i); } else { UnpackZeros(bs, i); }
    }
  }

  // ------------------------------------------------------------ the stored form

  function Avail(vout: seq<TxOut>): (a: seq<bool>)
    ensures |a| == |vout| && forall i :: 0 <= i < |a| ==> a[i] == !vout[i].IsNull()
  {
    if vout == [] then [] else Avail(vout[..|vout| - 1]) + [!vout[|vout| - 1].IsNull()]
  }

  function Tail(a: seq<bool>): seq<bool> { if |a| > 2 then a[2..] else [] }

  function Outs(keys: Keys, vout: seq<TxOut>): Stream {
    if vout == [] then []
    else (if vout[0].IsNull() then [] else OutStream(keys, vout[0])) + Outs(keys, vout[1..])
  }

  /** What an output reads back as: a spent one is not stored, and reads back as null. */
  function Back(keys: Keys, o: TxOut): TxOut { if o.IsNull() then NULL_OUT else RegainedOut(keys, o) }

  function BackAll(keys: Keys, vout: seq<TxOut>): (r: seq<TxOut>)
    ensures |r| == |vout| && forall i :: 0 <= i < |r| ==> r[i] == Back(keys, vout[i])
  {
    seq(|vout|, i requires 0 <= i < |vout| => Back(keys, vout[i]))
  }

  function Code(first: bool, second: bool, nMaskCode: nat, fCoinBase: bool): int {
    8 * (nMaskCode - (if first || second then 0 else 1)) + (if fCoinBase then 1 else 0) + (if first then 2 else 0)
        + (if second then 4 else 0)
  }

  function Serialized(keys: Keys, c: CoinSet): Stream {
    var a := Avail(c.vout);
    var mask := MaskOf(Tail(a));
    VarInt(c.nVersion)
        + (VarInt(Code(Flag(a, 0), Flag(a, 1), NonZero(mask), c.fCoinBase))
           + (mask + (Outs(keys, c.vout) + VarInt(c.nHeight))))
  }

  /** Reads mask bytes until n of them were not zero. */
  function ReadMask(n: nat, s: Stream): Option<(seq<nat>, Stream)>
    decreases |s|
  {
    if n == 0 then Some(([], s))
    else if s == [] then None
    else match ReadMask(if s[0] != 0 then n - 1 else n, s[1..])
      case None => None
      case Some((bs, rest)) => Some(([s[0]] + bs, rest))
  }

  function ReadOuts(keys: Keys, avail: seq<bool>, s: Stream): Option<(seq<TxOut>, Stream)> {
    if avail == [] then Some(([], s))
    else if avail[0] then
      match ReadOut(keys, s)
      case None => None
      case Some((o, s1)) =>
        match ReadOuts(keys, avail[1..], s1)
        case None => None
        case Some((os, rest)) => Some(([o] + os, rest))
    else
      match ReadOuts(keys, avail[1..], s)
      case None => None
      case Some((os, rest)) => Some(([NULL_OUT] + os, rest))
  }

  /** The part after the header code. */
  function ReadBody(keys: Keys, nVersion: nat, nCode: nat, s: Stream): Option<(CoinSet, Stream)> {
    var first, second := nCode / 2 % 2 == 1, nCode / 4 % 2 == 1;
    match ReadMask(nCode / 8 + if first || second then 0 else 1, s)
    case None => None
    case Some((mask, s1)) =>
      match ReadOuts(keys, [first, second] + Unpacked(mask), s1)
      case None => None
      case Some((vout, s2)) =>
        match ReadVarInt(s2)
        case None => None
        case Some((nHeight, rest)) => Some((Cleanup(CoinSet(nCode % 2 == 1, vout, nHeight, nVersion)), rest))
  }

  function Unserialized(keys: Keys, s: Stream): Option<(CoinSet, Stream)> {
    match ReadVarInt(s)
    case None => None
    case Some((nVersion, s1)) =>
      match ReadVarInt(s1)
      case None => None
      case Some((nCode, s2)) => ReadBody(keys, nVersion, nCode, s2)
  }

  // ------------------------------------------------------------ reading back

  lemma {:induction false} ReadMaskBack(bs: seq<nat>, rest: Stream)
    requires bs != [] ==> bs[|bs| - 1] != 0
    ensures ReadMask(NonZero(bs), bs + rest) == Some((bs, rest))
  {
    if bs == [] {
      assert bs + rest == rest;
    } else {
      NonZeroLast(bs);
      assert (bs + rest)[1..] == bs[1..] + rest;
      ReadMaskBack(bs[1..], rest);
      assert [bs[0]] + bs[1..] == bs;
    }
  }

  lemma {:induction false} NonZeroLast(bs: seq<nat>)
    requires bs != [] && bs[|bs| - 1] != 0
    ensures NonZero(bs) > 0
  {
    if bs[0] == 0 { NonZeroLast(bs[1..]); }
  }

  lemma {:induction false} OutsNone(keys: Keys, vout: seq<TxOut>)
    requires forall j :: 0 <= j < |vout| ==> vout[j].IsNull()
    ensures Outs(keys, vout) == []
  {
    if vout != [] { OutsNone(keys, vout[1..]); }
  }

  /** The output at a position, null beyond the end. */
  function At(vout: seq<TxOut>, j: nat): TxOut { if j < |vout| then vout[j] else NULL_OUT }

  /** The flags say which outputs are there. */
  ghost predicate FlagsMatch(avail: seq<bool>, vout: seq<TxOut>) {
    forall j: nat {:trigger At(vout, j)} :: Flag(avail, j) == !At(vout, j).IsNull()
  }

  lemma FlagsTail(avail: seq<bool>, vout: seq<TxOut>)
    requires FlagsMatch(avail, vout) && avail != []
    ensures FlagsMatch(avail[1..], if vout == [] then [] else vout[1..])
  {
    var tail := if vout == [] then [] else vout[1..];
    forall j: nat
      ensures Flag(avail[1..], j) == !At(tail, j).IsNull()
    {
      assert At(tail, j) == At(vout, j + 1);
    }
  }

  ghost predicate ReadsTo(keys: Keys, avail: seq<bool>, s: Stream, vs: seq<TxOut>, rest: Stream) {
    ReadOuts(keys, avail, s) == Some((vs, rest)) && |vs| == |avail|
  }

  /** Reading back by matching flags gives the outputs, with nulls where there is nothing. */
  lemma {:induction false} OutsBack(keys: Keys, vout: seq<TxOut>, avail: seq<bool>, rest: Stream)
    returns (vs: seq<TxOut>)
    requires FlagsMatch(avail, vout)
    ensures ReadsTo(keys, avail, Outs(keys, vout) + rest, vs, rest)
    ensures forall j :: 0 <= j < |vs| ==> vs[j] == Back(keys, At(vout, j))
    decreases |avail|
  {
    if avail == [] {
      forall j | 0 <= j < |vout|
        ensures vout[j].IsNull()
      {
        assert At(vout, j) == vout[j];
      }
      OutsNone(keys, vout);
      assert [] + rest == rest;
      vs := [];
    } else {
      FlagsTail(avail, vout);
      var tail := if vout == [] then [] else vout[1..];
      var vs1 := OutsBack(keys, tail, avail[1..], rest);
      vs := [Back(keys, At(vout, 0))] + vs1;
      OutsStep(keys, vout, avail, rest, tail, vs1);
      forall j | 0 <= j < |vs|
        ensures vs[j] == Back(keys, At(vout, j))
      {
        if j > 0 { assert At(tail, j - 1) == At(vout, j); }
      }
    }
  }

  lemma OutsStep(keys: Keys, vout: seq<TxOut>, avail: seq<bool>, rest: Stream, tail: seq<TxOut>, vs1: seq<TxOut>)
    requires FlagsMatch(avail, vout) && avail != [] && tail == if vout == [] then [] else vout[1..]
    requires ReadsTo(keys, avail[1..], Outs(keys, tail) + rest, vs1, rest)
    ensures ReadsTo(keys, avail, Outs(keys, vout) + rest, [Back(keys, At(vout, 0))] + vs1, rest)
  {
    hide ReadOut, OutStream, RegainedOut, Lasting;
    assert Flag(avail, 0) == !At(vout, 0).IsNull();
    if avail[0] {
      var o := vout[0];
      assert Outs(keys, vout) + rest == OutStream(keys, o) + (Outs(keys, tail) + rest);
      OutRoundTrip(keys, o, Outs(keys, tail) + rest);
    } else {
      assert Outs(keys, vout) == Outs(keys, tail);
    }
  }

  /** Lists that agree everywhere, nulls beyond the end included, are the same once trimmed. */
  lemma SameTrim(v: seq<TxOut>, w: seq<TxOut>)
    requires forall j: nat {:trigger At(v, j)} :: At(v, j) == At(w, j)
    ensures Trim(v) == Trim(w)
  {
    TrimLength(v, w);
    assert forall j: nat {:trigger At(w, j)} :: At(w, j) == At(v, j);
    TrimLength(w, v);
    forall j | 0 <= j < |Trim(v)|
      ensures Trim(v)[j] == Trim(w)[j]
    {
      assert At(v, j) == At(w, j);
    }
  }

  lemma TrimLength(v: seq<TxOut>, w: seq<TxOut>)
    requires forall j: nat {:trigger At(v, j)} :: At(v, j) == At(w, j)
    ensures |Trim(v)| <= |Trim(w)|
  {
    var r := Trim(v);
    if r != [] {
      var k := |r| - 1;
      assert r[k] == v[k] && At(v, k) == At(w, k) && !v[k].IsNull();
    }
  }

  lemma CodeBack(first: bool, second: bool, n: nat, fCoinBase: bool)
    requires first || second || n > 0
    ensures var code := Code(first, second, n, fCoinBase);
            && code >= 0 && (code % 2 == 1) == fCoinBase && (code / 2 % 2 == 1) == first
               && (code / 4 % 2 == 1) == second
            && code / 8 + (if first || second then 0 else 1) == n
  {
  }

  /** Where an output is unspent, the header code or the mask says so. */
  lemma SomethingStored(vout: seq<TxOut>, k: nat)
    requires k < |vout| && !vout[k].IsNull()
    ensures Flag(Avail(vout), 0) || Flag(Avail(vout), 1) || NonZero(MaskOf(Tail(Avail(vout)))) > 0
  {
    MaskTrimmed(Tail(Avail(vout)));
    hide MaskOf, Unpacked, NonZero, Avail;
    var a := Avail(vout);
    assert a[k];
    if k >= 2 {
      var mask := MaskOf(Tail(a));
      assert Flag(Tail(a), k - 2);
      MaskBack(Tail(a), k - 2);
      assert mask != [];
      NonZeroLast(mask);
    }
  }

  /** The header code and the mask recover exactly the unspent positions. */
  lemma FlagsRecovered(vout: seq<TxOut>)
    ensures var a := Avail(vout);
            FlagsMatch([Flag(a, 0), Flag(a, 1)] + Unpacked(MaskOf(Tail(a))), vout)
  {
    hide MaskOf, Unpacked;
    var a := Avail(vout);
    var bits := Unpacked(MaskOf(Tail(a)));
    var avail := [Flag(a, 0), Flag(a, 1)] + bits;
    forall j: nat
      ensures Flag(avail, j) == !At(vout, j).IsNull()
    {
      if j >= 2 {
        MaskBack(Tail(a), j - 2);
        assert Flag(avail, j) == Flag(bits, j - 2);
      }
    }
  }

  /** What a number that is written as a VARINT reads back as. */
  function Kept(n: int): nat { if n < 0 then n % 0x80 else n }

  /** What a coin set reads back as: without its spent outputs at the end, each other output as far as it lasts, and a
      negative version or height cut to seven bits. */
  function Restored(keys: Keys, c: CoinSet): CoinSet {
    Cleanup(c.(vout := BackAll(keys, c.vout), nVersion := Kept(c.nVersion), nHeight := Kept(c.nHeight)))
  }

  /** Unserializing what was serialized, for every coin set that is not fully spent. */
  lemma UnserializeSerialized(keys: Keys, c: CoinSet, rest: Stream)
    requires !c.IsPruned()
    ensures Unserialized(keys, Serialized(keys, c) + rest) == Some((Restored(keys, c), rest))
  {
    hide VarInt, ReadVarInt, MaskOf, Unpacked, NonZero, ReadBody, Outs, Avail, BackAll;
    var a := Avail(c.vout);
    var first, second, mask := Flag(a, 0), Flag(a, 1), MaskOf(Tail(a));
    assert first || second || NonZero(mask) > 0 by {
      var k :| 0 <= k < |c.vout| && !c.vout[k].IsNull();
      SomethingStored(c.vout, k);
    }
    var code := Code(first, second, NonZero(mask), c.fCoinBase);
    CodeBack(first, second, NonZero(mask), c.fCoinBase);
    var body := mask + (Outs(keys, c.vout) + VarInt(c.nHeight)) + rest;
    assert Serialized(keys, c) + rest == VarInt(c.nVersion) + (VarInt(code) + body);
    VarIntRoundTrip(c.nVersion, VarInt(code) + body);
    VarIntRoundTrip(code, body);
    BodyBack(keys, c, Kept(c.nVersion), code, mask, rest);
  }

  lemma BodyBack(keys: Keys, c: CoinSet, nVersion: nat, code: nat, mask: seq<nat>, rest: Stream)
    requires mask == MaskOf(Tail(Avail(c.vout)))
    requires code % 2 == 1 <==> c.fCoinBase
    requires code / 2 % 2 == 1 <==> Flag(Avail(c.vout), 0)
    requires code / 4 % 2 == 1 <==> Flag(Avail(c.vout), 1)
    requires code / 8 + (if Flag(Avail(c.vout), 0) || Flag(Avail(c.vout), 1) then 0 else 1) == NonZero(mask)
    ensures ReadBody(keys, nVersion, code, mask + (Outs(keys, c.vout) + VarInt(c.nHeight)) + rest) ==
            Some((Cleanup(c.(vout := BackAll(keys, c.vout), nVersion := nVersion, nHeight := Kept(c.nHeight))), rest))
  {
    MaskTrimmed(Tail(Avail(c.vout)));
    hide VarInt, ReadVarInt, MaskOf, Unpacked, NonZero, Outs, Avail, ReadOuts, ReadMask, Trim, BackAll, Back;
    var a := Avail(c.vout);
    var outs, height := Outs(keys, c.vout), VarInt(c.nHeight);
    assert mask + (outs + height) + rest == mask + (outs + (height + rest));
    ReadMaskBack(mask, outs + (height + rest));
    FlagsRecovered(c.vout);
    var avail := [Flag(a, 0), Flag(a, 1)] + Unpacked(mask);
    var vs := OutsBack(keys, c.vout, avail, height + rest);
    VarIntRoundTrip(c.nHeight, rest);
    VoutBack(keys, c.vout, avail, vs);
  }

  lemma MaskTrimmed(bits: seq<bool>)
    ensures var mask := MaskOf(bits); mask != [] ==> mask[|mask| - 1] != 0
  {
  }

  lemma VoutBack(keys: Keys, vout: seq<TxOut>, avail: seq<bool>, vs: seq<TxOut>)
    requires FlagsMatch(avail, vout) && |vs| == |avail|
    requires forall j :: 0 <= j < |vs| ==> vs[j] == Back(keys, At(vout, j))
    ensures Trim(vs) == Trim(BackAll(keys, vout))
  {
    hide RegainedOut, Trim;
    forall j: nat
      ensures At(vs, j) == At(BackAll(keys, vout), j)
    {
      assert Flag(avail, j) == !At(vout, j).IsNull();
    }
    SameTrim(vs, BackAll(keys, vout));
  }

  /** A spent output is null, and an unspent one lasts. */
  ghost predicate Intact(keys: Keys, o: TxOut) { if o.IsNull() then o == NULL_OUT else Lasting(keys, o) }

  /** For a cleaned coin set the round trip is exact, if and only if neither its version nor its height is negative, and
      every output lasts. */
  lemma RoundTripIff(keys: Keys, c: CoinSet, rest: Stream)
    requires !c.IsPruned() && Cleanup(c) == c
    ensures Unserialized(keys, Serialized(keys, c) + rest) == Some((c, rest)) <==>
            c.nVersion >= 0 && c.nHeight >= 0 && forall o :: o in c.vout ==> Intact(keys, o)
  {
    hide Unserialized, Serialized, Intact, Back;
    UnserializeSerialized(keys, c, rest);
    var back := BackAll(keys, c.vout);
    forall o | o in c.vout ensures Back(keys, o) == o <==> Intact(keys, o) { BackIff(keys, o); }
    if Restored(keys, c) == c {
      assert Trim(back) == c.vout && back == c.vout;
      forall o | o in c.vout ensures Intact(keys, o) {
        var i :| 0 <= i < |c.vout| && c.vout[i] == o;
        assert back[i] == Back(keys, c.vout[i]);
      }
    } else if forall o :: o in c.vout ==> Intact(keys, o) {
      assert back == c.vout;
    }
  }

  lemma BackIff(keys: Keys, o: TxOut)
    ensures Back(keys, o) == o <==> Intact(keys, o)
  {
    hide OutStream, ReadOut, RegainedOut, Lasting;
    OutRoundTrip(keys, o, []);
  }

  /** A transaction may have a negative version. Its coins do not read back as they were. */
  lemma NegativeVersionLost(keys: Keys, c: CoinSet)
    requires c.vout == [TxOut(5, [])] && c.nVersion == -2 && c.nHeight >= 0
    ensures Cleanup(c) == c && !c.IsPruned()
            && Unserialized(keys, Serialized(keys, c)) == Some((c.(nVersion := 126), []))
  {
    hide Unserialized, Serialized, Back;
    assert c.vout[0] in c.vout && !c.vout[0].IsNull();
    BackIff(keys, c.vout[0]);
    UnserializeSerialized(keys, c, []);
    assert Serialized(keys, c) + [] == Serialized(keys, c);
    assert BackAll(keys, c.vout) == c.vout;
  }

  /** An amount of 64 bits may be too large for its code. It reads back as another one. */
  lemma LargeAmountLost(keys: Keys, c: CoinSet)
    requires c.vout == [TxOut(OVERFLOW, [])] && c.nVersion >= 0 && c.nHeight >= 0
    ensures Cleanup(c) == c && !c.IsPruned()
            && Unserialized(keys, Serialized(keys, c)) == Some((c.(vout := [TxOut(10000, [])]), []))
  {
    hide Unserialized, Serialized;
    assert c.vout[0] in c.vout && !c.vout[0].IsNull();
    FirstOverflow();
    UnserializeSerialized(keys, c, []);
    assert Serialized(keys, c) + [] == Serialized(keys, c);
    assert BackAll(keys, c.vout) == [TxOut(10000, [])];
  }

  // ------------------------------------------------------------ the format

  lemma {:induction false} BitsAre(n: nat, k: nat, i: nat)
    requires i < k
    ensures BitsOf(n, k)[i] == (n / Pow2(i) % 2 == 1)
  {
    if i > 0 {
      BitsAre(n / 2, k - 1, i - 1);
      HalfAgain(n, i);
    }
  }

  lemma HalfAgain(n: nat, i: nat)
    requires i > 0
    ensures n / 2 / Pow2(i - 1) == n / Pow2(i)
  {
    var p, q := Pow2(i - 1), n / Pow2(i);
    var r := n % Pow2(i);
    assert n == q * (2 * p) + r;
    assert q * (2 * p) == 2 * (q * p);
    assert n / 2 == q * p + r / 2;
    DivUnique(n / 2, p, q, r / 2);
  }

  lemma {:induction false} UnpackedAre(bs: seq<nat>, b: nat, i: nat)
    requires b < |bs| && i < 8
    ensures Unpacked(bs)[8 * b + i] == (bs[b] / Pow2(i) % 2 == 1)
  {
    if b == 0 { BitsAre(bs[0], 8, i); } else { UnpackedAre(bs[1..], b - 1, i); }
  }

  /** Output k is there and not spent. */
  predicate IsUnspent(vout: seq<TxOut>, k: nat) { k < |vout| && !vout[k].IsNull() }

  /** Bit i of mask byte b is for output 2 + 8 b + i; what is beyond the mask is spent; its last byte is not zero. */
  ghost predicate MaskFits(mask: seq<nat>, vout: seq<TxOut>) {
    && (mask == [] || mask[|mask| - 1] != 0)
    && (forall b: nat, i: nat :: b < |mask| && i < 8 ==>
          (mask[b] / Pow2(i) % 2 == 1 <==> IsUnspent(vout, 2 + 8 * b + i)))
    && forall k: nat :: k >= 2 + 8 * |mask| ==> !IsUnspent(vout, k)
  }

  /** Bit 0 is for a coinbase, bits 1 and 2 are for the first two outputs. Above them is the number of mask bytes that
      are not zero, less one where both are spent. */
  ghost predicate HeaderFits(code: nat, mask: seq<nat>, c: CoinSet) {
    && (code % 2 == 1 <==> c.fCoinBase)
    && (code / 2 % 2 == 1 <==> IsUnspent(c.vout, 0)) && (code / 4 % 2 == 1 <==> IsUnspent(c.vout, 1))
    && code / 8 == NonZero(mask) - if IsUnspent(c.vout, 0) || IsUnspent(c.vout, 1) then 0 else 1
  }

  /** The stored form: version, header code, mask, the unspent outputs in order, height. */
  lemma StoredForm(keys: Keys, c: CoinSet) returns (code: nat, mask: seq<nat>)
    requires !c.IsPruned()
    ensures Serialized(keys, c) == VarInt(c.nVersion) + VarInt(code) + mask + Outs(keys, c.vout) + VarInt(c.nHeight)
    ensures MaskFits(mask, c.vout) && HeaderFits(code, mask, c)
  {
    hide VarInt, Unpacked, NonZero, Outs, MaskOf;
    var a := Avail(c.vout);
    mask := MaskOf(Tail(a));
    assert Flag(a, 0) || Flag(a, 1) || NonZero(mask) > 0 by {
      var k :| 0 <= k < |c.vout| && !c.vout[k].IsNull();
      SomethingStored(c.vout, k);
    }
    CodeBack(Flag(a, 0), Flag(a, 1), NonZero(mask), c.fCoinBase);
    code := Code(Flag(a, 0), Flag(a, 1), NonZero(mask), c.fCoinBase);
    MaskTrimmed(Tail(a));
    forall b: nat, i: nat | b < |mask| && i < 8
      ensures mask[b] / Pow2(i) % 2 == 1 <==> IsUnspent(c.vout, 2 + 8 * b + i)
    {
      UnpackedAre(mask, b, i);
      MaskBack(Tail(a), 8 * b + i);
    }
    forall k: nat | k >= 2 + 8 * |mask|
      ensures !IsUnspent(c.vout, k)
    {
      MaskBack(Tail(a), k - 2);
    }
  }

  /** A record in full: version 1, height 203998, and 600 coins to a key hash as the second output, the first spent. */
  lemma SomeRecord(keys: Keys, keyHash: seq<nat>)
    requires |keyHash| == 20
    ensures var o := TxOut(60000000000, [0x76, 0xa9, 20] + keyHash + [0x88, 0xac]);
            Serialized(keys, CoinSet(false, [NULL_OUT, o], 203998, 1))
            == [0x01, 0x04, 0x83, 0x58, 0x00] + keyHash + [0x8b, 0xb8, 0x5e]
  {
    hide VarInt, AmountCode, ScriptStream, Outs, Avail, MaskOf, Tail, NonZero;
    var o := TxOut(60000000000, [0x76, 0xa9, 20] + keyHash + [0x88, 0xac]);
    SomeVarInts();
    SomeAmount();
    ToKeyHash(keys, keyHash);
    SecondOnly(keys, o);
    var a := Avail([NULL_OUT, o]);
    assert !Flag(a, 0) && Flag(a, 1) && Code(false, true, 0, false) == 4;
    assert OutStream(keys, o) == [0x83, 0x58] + ([0x00] + keyHash);
    assert [0x01] + ([0x04] + ([] + ([0x83, 0x58] + ([0x00] + keyHash) + [0x8b, 0xb8, 0x5e])))
        == [0x01, 0x04, 0x83, 0x58, 0x00] + keyHash + [0x8b, 0xb8, 0x5e];
  }

  lemma SomeVarInts()
    ensures VarInt(1) == [0x01] && VarInt(4) == [0x04]
    ensures VarInt(600) == [0x83, 0x58] && VarInt(203998) == [0x8b, 0xb8, 0x5e]
  {
    assert VarGroups(3, false) == [0x83];
    assert VarGroups(11, false) == [0x8b];
    assert VarGroups(1592, false) == [0x8b, 0xb8];
  }

  lemma SomeAmount()
    ensures AmountCode(60000000000) == 600
  {
    hide Compressed;
    assert Pow10(3) == 1000 && Pow10(6) == 1000000 && Pow10(9) == 1000000000;
    CompressDecompressed(600);
  }

  lemma ToKeyHash(keys: Keys, keyHash: seq<nat>)
    requires |keyHash| == 20
    ensures ScriptStream(keys, [0x76, 0xa9, 20] + keyHash + [0x88, 0xac]) == [0x00] + keyHash
  {
    var d := keyHash + [0, 0, 0, 0, 0, 0, 0, 0, 0, 0, 0, 0];
    assert d[..20] == keyHash;
    ScriptForms(keys, d, d);
  }

  lemma SecondOnly(keys: Keys, o: TxOut)
    requires !o.IsNull()
    ensures Outs(keys, [NULL_OUT, o]) == OutStream(keys, o)
    ensures Tail(Avail([NULL_OUT, o])) == [] && MaskOf([]) == [] && NonZero([]) == 0
  {
    assert [NULL_OUT, o][1..] == [o] && [o][1..] == [];
    assert Outs(keys, [o]) == OutStream(keys, o) + [] == OutStream(keys, o);
  }

  // ------------------------------------------------------------ the operations

  /** The flags of mask byte b. */
  ghost function Flags(vout: seq<TxOut>, b: nat, n: nat): seq<bool>
    requires 2 + 8 * b + n <= |vout|
  {
    Avail(vout)[2 + 8 * b..2 + 8 * b + n]
  }

  lemma {:induction false} BytesAt(bits: seq<bool>, b: nat)
    requires b < |Bytes(bits)|
    ensures 8 * b < |bits| && Bytes(bits)[b] == ByteOf(bits[8 * b..Min(8 * b + 8, |bits|)])
    decreases |bits|
  {
    var n := Min(8, |bits|);
    if b > 0 {
      var tail := bits[n..];
      BytesAt(tail, b - 1);
      hide Bytes, ByteOf;
      SliceOfDrop(bits, 8, 8 * (b - 1), Min(8 * b + 8, |bits|) - 8);
    }
  }

  /** Mask byte b, and how many there are, in terms of the outputs. */
  lemma MaskByteAt(vout: seq<TxOut>, b: nat)
    ensures var bs := Bytes(Tail(Avail(vout)));
            && (b < |bs| <==> 2 + b * 8 < |vout|)
            && (b < |bs| ==> bs[b] == ByteOf(Flags(vout, b, Min(8, |vout| - 2 - 8 * b))))
  {
    var a := Avail(vout);
    PackedLength(Tail(a));
    if b < |Bytes(Tail(a))| {
      BytesAt(Tail(a), b);
      var n := Min(8, |vout| - 2 - 8 * b);
      SliceOfDrop(a, 2, 8 * b, 8 * b + n);
    }
  }

  lemma SliceOfDrop<T>(a: seq<T>, k: nat, i: nat, j: nat)
    requires i <= j && k + j <= |a|
    ensures a[k..][i..j] == a[k + i..k + j]
  {
  }

  lemma {:induction false} ByteSnoc(bits: seq<bool>, x: bool)
    ensures ByteOf(bits + [x]) == ByteOf(bits) + if x then Pow2(|bits|) else 0
    ensures ByteOf(bits) < Pow2(|bits|)
  {
    if bits == [] {
      assert bits + [x] == [x] && [x][1..] == [];
    } else {
      assert (bits + [x])[1..] == bits[1..] + [x];
      ByteSnoc(bits[1..], x);
    }
  }

  lemma TrimSnoc(bs: seq<nat>, x: nat)
    ensures |TrimBytes(bs + [x])| == if x != 0 then |bs| + 1 else |TrimBytes(bs)|
  {
    assert (bs + [x])[..|bs|] == bs;
  }

  lemma {:induction false} NonZeroSnoc(bs: seq<nat>, x: nat)
    ensures NonZero(bs + [x]) == NonZero(bs) + if x != 0 then 1 else 0
  {
    if bs == [] {
      assert bs + [x] == [x] && [x][1..] == [];
    } else {
      assert (bs + [x])[1..] == bs[1..] + [x];
      NonZeroSnoc(bs[1..], x);
    }
  }

  lemma {:induction false} NonZeroTrim(bs: seq<nat>)
    ensures NonZero(TrimBytes(bs)) == NonZero(bs)
  {
    if bs != [] && bs[|bs| - 1] == 0 {
      var front := bs[..|bs| - 1];
      NonZeroTrim(front);
      assert bs == front + [0];
      NonZeroSnoc(front, 0);
    }
  }

  /** The number of mask bytes to store, and of those that are not zero. */
  method CalcMaskSize(vout: seq<TxOut>) returns (nBytes: nat, nNonzeroBytes: nat)
    ensures var mask := MaskOf(Tail(Avail(vout))); nBytes == |mask| && nNonzeroBytes == NonZero(mask)
  {
    hide Bytes, Avail, Flags;
    ghost var bs := Bytes(Tail(Avail(vout)));
    var nLastUsedByte: nat, b: nat := 0, 0;
    nNonzeroBytes := 0;
    assert bs[..0] == [];
    MaskByteAt(vout, 0);
    while 2 + b * 8 < |vout|
      invariant b <= |bs| && (b < |bs| <==> 2 + b * 8 < |vout|)
      invariant nLastUsedByte == |TrimBytes(bs[..b])| && nNonzeroBytes == NonZero(bs[..b])
      decreases |bs| - b
    {
      var fZero := IsZeroByte(vout, b);
      assert bs[..b + 1] == bs[..b] + [bs[b]];
      TrimSnoc(bs[..b], bs[b]);
      NonZeroSnoc(bs[..b], bs[b]);
      if !fZero {
        nLastUsedByte := b + 1;
        nNonzeroBytes := nNonzeroBytes + 1;
      }
      MaskByteAt(vout, b + 1);
      b := b + 1;
    }
    assert bs[..b] == bs;
    NonZeroTrim(bs);
    nBytes := nLastUsedByte;
  }

  method IsZeroByte(vout: seq<TxOut>, b: nat) returns (fZero: bool)
    requires 2 + b * 8 < |vout| && b < |Bytes(Tail(Avail(vout)))|
    ensures fZero <==> Bytes(Tail(Avail(vout)))[b] == 0
  {
    MaskByteAt(vout, b);
    hide Bytes, ByteOf, Avail, Pow2;
    fZero := true;
    var i: nat := 0;
    NoFlags();
    assert Flags(vout, b, 0) == [];
    while i < 8 && 2 + b * 8 + i < |vout|
      invariant i <= Min(8, |vout| - 2 - 8 * b) && (fZero <==> ByteOf(Flags(vout, b, i)) == 0)
    {
      ghost var x := !vout[2 + b * 8 + i].IsNull();
      assert Flags(vout, b, i + 1) == Flags(vout, b, i) + [x];
      ByteSnoc(Flags(vout, b, i), x);
      if !vout[2 + b * 8 + i].IsNull() { fZero := false; }
      i := i + 1;
    }
  }

  method MaskByte(vout: seq<TxOut>, b: nat) returns (chAvail: nat)
    requires 2 + b * 8 < |vout| && b < |Bytes(Tail(Avail(vout)))|
    ensures chAvail == Bytes(Tail(Avail(vout)))[b]
  {
    MaskByteAt(vout, b);
    hide Bytes, BitOr, Pow2, ByteOf;
    ghost var n := Min(8, |vout| - 2 - 8 * b);
    chAvail := 0;
    var i: nat := 0;
    NoFlags();
    assert Flags(vout, b, 0) == [];
    while i < 8 && 2 + b * 8 + i < |vout|
      invariant i <= n && chAvail == ByteOf(Flags(vout, b, i))
    {
      ghost var x := !vout[2 + b * 8 + i].IsNull();
      assert Flags(vout, b, i + 1) == Flags(vout, b, i) + [x];
      ByteSnoc(Flags(vout, b, i), x);
      if !vout[2 + b * 8 + i].IsNull() {
        OrDisjoint(chAvail, Pow2(i), i, 1);
        chAvail := BitOr(chAvail, Pow2(i));
      }
      i := i + 1;
    }
  }

  lemma NoFlags()
    ensures ByteOf([]) == 0
  {
  }

  lemma {:induction false} OutsAppend(keys: Keys, vout: seq<TxOut>, o: TxOut)
    ensures Outs(keys, vout + [o]) ==
              Outs(keys, vout) + if o.IsNull() then [] else OutStream(keys, o)
  {
    hide OutStream;
    if vout == [] {
      assert vout + [o] == [o] && [o][1..] == [];
    } else {
      assert (vout + [o])[1..] == vout[1..] + [o];
      OutsAppend(keys, vout[1..], o);
    }
  }

  /** Writes a coin set that is not fully spent. */
  method Serialize(keys: Keys, c: CoinSet) returns (s: Stream)
    requires !c.IsPruned()
    ensures s == Serialized(keys, c)
  {
    hide VarInt, MaskOf, Outs, Avail, NonZero, Bytes;
    var nMaskSize, nMaskCode := CalcMaskSize(c.vout);
    var fFirst := |c.vout| > 0 && !c.vout[0].IsNull();
    var fSecond := |c.vout| > 1 && !c.vout[1].IsNull();
    assert fFirst || fSecond || nMaskCode > 0 by {
      var k :| 0 <= k < |c.vout| && !c.vout[k].IsNull();
      SomethingStored(c.vout, k);
    }
    var nCode := Code(fFirst, fSecond, nMaskCode, c.fCoinBase);
    var mask := WriteMask(c.vout, nMaskSize);
    var outs := WriteOuts(keys, c.vout);
    s := VarInt(c.nVersion) + (VarInt(nCode) + (mask + (outs + VarInt(c.nHeight))));
  }

  method WriteMask(vout: seq<TxOut>, nMaskSize: nat) returns (mask: seq<nat>)
    requires nMaskSize == |MaskOf(Tail(Avail(vout)))|
    ensures mask == MaskOf(Tail(Avail(vout)))
  {
    hide Bytes, Avail, TrimBytes;
    ghost var bs := Bytes(Tail(Avail(vout)));
    mask := [];
    var b: nat := 0;
    while b < nMaskSize
      invariant b <= nMaskSize <= |bs| && mask == bs[..b]
    {
      MaskByteAt(vout, b);
      var chAvail := MaskByte(vout, b);
      mask := mask + [chAvail];
      b := b + 1;
    }
  }

  method WriteOuts(keys: Keys, vout: seq<TxOut>) returns (s: Stream)
    ensures s == Outs(keys, vout)
  {
    hide Outs, OutStream;
    NoOuts(keys);
    s := [];
    var i: nat := 0;
    assert vout[..0] == [];
    while i < |vout|
      invariant i <= |vout| && s == Outs(keys, vout[..i])
    {
      assert vout[..i + 1] == vout[..i] + [vout[i]];
      OutsAppend(keys, vout[..i], vout[i]);
      if !vout[i].IsNull() {
        var out := WriteOut(keys, vout[i]);
        s := s + out;
      }
      i := i + 1;
    }
    assert vout[..i] == vout;
  }

  lemma NoOuts(keys: Keys)
    ensures Outs(keys, []) == []
  {
  }

  /** What is read, with what was read before it in front. */
  ghost function After<T>(before: seq<T>, r: Option<(seq<T>, Stream)>): Option<(seq<T>, Stream)> {
    match r
    case None => None
    case Some((more, rest)) => Some((before + more, rest))
  }

  lemma AfterTwice<T>(a: seq<T>, x: T, r: Option<(seq<T>, Stream)>)
    ensures After(a, After([x], r)) == After(a + [x], r) && After([], r) == r
  {
    if r.Some? {
      assert a + ([x] + r.value.0) == a + [x] + r.value.0;
      assert [] + r.value.0 == r.value.0;
    }
  }

  lemma {:induction false} UnpackedSnoc(bs: seq<nat>, b: nat)
    ensures Unpacked(bs + [b]) == Unpacked(bs) + BitsOf(b, 8)
  {
    if bs == [] {
      assert bs + [b] == [b] && [b][1..] == [];
    } else {
      assert (bs + [b])[1..] == bs[1..] + [b];
      UnpackedSnoc(bs[1..], b);
    }
  }

  lemma ReadMaskStep(n: nat, s: Stream)
    requires n > 0 && s != []
    ensures ReadMask(n, s) == After([s[0]], ReadMask(if s[0] != 0 then n - 1 else n, s[1..]))
  {
  }

  lemma ReadMaskDone(n: nat, s: Stream)
    ensures n == 0 ==> ReadMask(n, s) == Some(([], s))
    ensures n > 0 && s == [] ==> ReadMask(n, s) == None
  {
  }

  lemma BitsStep(n: nat, k: nat)
    ensures BitsOf(n, k) == if k == 0 then [] else [n % 2 == 1] + BitsOf(n / 2, k - 1)
  {
  }

  /** The flags of a byte, lowest first. */
  method ByteFlags(chAvail: nat) returns (flags: seq<bool>)
    ensures flags == BitsOf(chAvail, 8)
  {
    hide BitsOf;
    flags := [];
    var p: nat, n: nat := 0, chAvail;
    while p < 8
      invariant p <= 8 && flags + BitsOf(n, 8 - p) == BitsOf(chAvail, 8)
    {
      var f := n % 2 == 1;
      BitsStep(n, 8 - p);
      assert flags + ([f] + BitsOf(n / 2, 7 - p)) == flags + [f] + BitsOf(n / 2, 7 - p);
      flags := flags + [f];
      n := n / 2;
      p := p + 1;
    }
    assert flags + [] == flags;
  }

  method LoadMask(nMaskCode: nat, s: Stream, first: bool, second: bool) returns (r: Option<(seq<bool>, Stream)>)
    ensures match ReadMask(nMaskCode, s)
            case None => r == None
            case Some((mask, rest)) => r == Some(([first, second] + Unpacked(mask), rest))
  {
    hide ReadMask, Unpacked, BitsOf;
    var vAvail, left: nat, t := [first, second], nMaskCode, s;
    ghost var got: seq<nat> := [];
    AfterTwice(got, 0, ReadMask(nMaskCode, s));
    assert Unpacked(got) == [];
    while left > 0
      invariant ReadMask(nMaskCode, s) == After(got, ReadMask(left, t)) && vAvail == [first, second] + Unpacked(got)
      decreases |t|
    {
      ReadMaskDone(left, t);
      if t == [] { return None; }
      var chAvail := t[0];
      ReadMaskStep(left, t);
      AfterTwice(got, chAvail, ReadMask(if t[0] != 0 then left - 1 else left, t[1..]));
      var flags := ByteFlags(chAvail);
      UnpackedSnoc(got, chAvail);
      got := got + [chAvail];
      vAvail := vAvail + flags;
      t := t[1..];
      if chAvail != 0 { left := left - 1; }
    }
    ReadMaskDone(left, t);
    assert got + [] == got;
    return Some((vAvail, t));
  }

  lemma ReadOutsStep(keys: Keys, avail: seq<bool>, s: Stream)
    requires avail != []
    ensures !avail[0] ==> ReadOuts(keys, avail, s) == After([NULL_OUT], ReadOuts(keys, avail[1..], s))
    ensures avail[0] ==>
              match ReadOut(keys, s)
              case None => ReadOuts(keys, avail, s) == None
              case Some((o, s1)) => ReadOuts(keys, avail, s) == After([o], ReadOuts(keys, avail[1..], s1))
  {
    hide ReadOut;
  }

  method LoadOuts(keys: Keys, vAvail: seq<bool>, s: Stream) returns (r: Option<(seq<TxOut>, Stream)>)
    ensures r == ReadOuts(keys, vAvail, s)
  {
    hide ReadOuts, ReadOut;
    var vout: seq<TxOut>, t, i: nat := [], s, 0;
    AfterTwice(vout, NULL_OUT, ReadOuts(keys, vAvail, s));
    assert vAvail[0..] == vAvail;
    while i < |vAvail|
      invariant i <= |vAvail| && ReadOuts(keys, vAvail, s) == After(vout, ReadOuts(keys, vAvail[i..], t))
    {
      assert vAvail[i..][1..] == vAvail[i + 1..];
      ReadOutsStep(keys, vAvail[i..], t);
      if vAvail[i] {
        var out := LoadOut(keys, t);
        match out
        case None => return None;
        case Some((o, t1)) =>
          AfterTwice(vout, o, ReadOuts(keys, vAvail[i + 1..], t1));
          vout, t := vout + [o], t1;
      } else {
        AfterTwice(vout, NULL_OUT, ReadOuts(keys, vAvail[i + 1..], t));
        vout := vout + [NULL_OUT];
      }
      i := i + 1;
    }
    NoMoreOuts(keys, t);
    assert vAvail[i..] == [] && vout + [] == vout;
    return Some((vout, t));
  }

  lemma NoMoreOuts(keys: Keys, s: Stream)
    ensures ReadOuts(keys, [], s) == Some(([], s))
  {
  }

  method Unserialize(keys: Keys, s: Stream) returns (r: Option<(CoinSet, Stream)>)
    ensures r == Unserialized(keys, s)
  {
    hide ReadVarInt, ReadMask, ReadOuts, Unpacked, Trim;
    match ReadVarInt(s)
    case None => return None;
    case Some((nVersion, s1)) =>
      match ReadVarInt(s1)
      case None => return None;
      case Some((nCode, s2)) =>
        var first, second := nCode / 2 % 2 == 1, nCode / 4 % 2 == 1;
        var mask := LoadMask(nCode / 8 + if first || second then 0 else 1, s2, first, second);
        if mask == None { return None; }
        var outs := LoadOuts(keys, mask.value.0, mask.value.1);
        if outs == None { return None; }
        match ReadVarInt(outs.value.1)
        case None => return None;
        case Some((nHeight, rest)) =>
          return Some((Cleanup(CoinSet(nCode % 2 == 1, outs.value.0, nHeight, nVersion)), rest));
  }
}
