/** The compact stream forms of numbers, amounts and scripts. A stream is a sequence of bytes; a
    reader gives what it read and what is left of the stream, or None at its end. */
module Compressor {

  import opened Amounts
  import opened Coins

  type Stream = seq<nat>

  // ------------------------------------------------------------ VARINT

  /** Groups of seven bits, highest first; all but the last group carry 0x80, and stand for one more than they say. */
  function VarGroups(n: nat, last: bool): (s: Stream)
    ensures |s| > 0
  {
    (if n <= 0x7f then [] else VarGroups(n / 0x80 - 1, false)) + [n % 0x80 + if last then 0 else 0x80]
  }

  /** What WriteVarInt writes. A negative number is at most 0x7f, so only its low seven bits go out. */
  function VarInt(n: int): Stream {
    if n <= 0x7f then [n % 0x80] else VarGroups(n, true)
  }

  function ReadGroups(acc: nat, s: Stream): Option<(nat, Stream)>
    decreases |s|
  {
    if s == [] then None else
      var n := acc * 0x80 + s[0] % 0x80;
      if s[0] / 0x80 % 2 == 1 then ReadGroups(n + 1, s[1..]) else Some((n, s[1..]))
  }

  function ReadVarInt(s: Stream): Option<(nat, Stream)> { ReadGroups(0, s) }

  lemma {:induction false} ReadBack(n: nat, last: bool, rest: Stream)
    ensures ReadGroups(0, VarGroups(n, last) + rest) == if last then Some((n, rest)) else ReadGroups(n + 1, rest)
  {
    var d := n % 0x80 + if last then 0 else 0x80;
    if n <= 0x7f {
      assert VarGroups(n, last) == [d];
      ReadOne(0, d, rest);
    } else {
      var high := n / 0x80 - 1;
      ReadBack(high, false, [d] + rest);
      assert VarGroups(high, false) + [d] + rest == VarGroups(high, false) + ([d] + rest);
      ReadOne(high + 1, d, rest);
    }
  }

  lemma ReadOne(acc: nat, d: nat, rest: Stream)
    requires d < 0x100
    ensures ReadGroups(acc, [d] + rest) ==
            if d >= 0x80 then ReadGroups(acc * 0x80 + d - 0x80 + 1, rest) else Some((acc * 0x80 + d, rest))
  {
    assert ([d] + rest)[1..] == rest;
  }

  /** Reading gives back what was written, if and only if it was not negative. */
  lemma VarIntRoundTrip(n: int, rest: Stream)
    ensures ReadVarInt(VarInt(n) + rest) == Some((if n < 0 then n % 0x80 else n, rest))
    ensures ReadVarInt(VarInt(n) + rest) == Some((n, rest)) <==> n >= 0
  {
    if n < 0 {
      assert ([n % 0x80] + rest)[1..] == rest;
    } else {
      ReadBack(n, true, rest);
    }
  }

  /** All but the last byte have the high bit, and stand for one more than their low bits say. */
  function HighDigits(s: Stream): nat {
    if s == [] then 0 else 0x80 * HighDigits(s[..|s| - 1]) + s[|s| - 1] % 0x80 + 1
  }

  ghost predicate Continued(s: Stream) { forall i :: 0 <= i < |s| ==> 0x80 <= s[i] < 0x100 }

  /** The digits of a number, high ones first, base 128; and how many there are. */
  lemma VarIntValue(n: nat)
    ensures var s := VarInt(n); |s| > 0 && var high, low := s[..|s| - 1], s[|s| - 1];
            Continued(high) && low < 0x80 && n == 0x80 * HighDigits(high) + low
    ensures (|VarInt(n)| == 1 <==> n < 128) && (|VarInt(n)| <= 2 <==> n < 16512) && (|VarInt(n)| <= 3 <==> n < 2113664)
  {
    hide HighDigits, Continued;
    var high := if n <= 0x7f then [] else VarGroups(n / 0x80 - 1, false);
    assert VarInt(n) == high + [n % 0x80];
    hide VarGroups, VarInt;
    NoDigits();
    if n > 0x7f {
      GroupsValue(n / 0x80 - 1);
      GroupsSize(n / 0x80 - 1);
    }
    assert (high + [n % 0x80])[..|high|] == high;
  }

  lemma NoDigits()
    ensures HighDigits([]) == 0 && Continued([])
  {
  }

  lemma MoreDigits(s: Stream, d: nat)
    requires Continued(s) && d < 0x80
    ensures Continued(s + [d + 0x80]) && HighDigits(s + [d + 0x80]) == 0x80 * HighDigits(s) + d + 1
  {
    assert (s + [d + 0x80])[..|s|] == s;
  }

  lemma {:induction false} GroupsValue(n: nat)
    ensures Continued(VarGroups(n, false)) && HighDigits(VarGroups(n, false)) == n + 1
  {
    hide HighDigits, Continued;
    var high := if n <= 0x7f then [] else VarGroups(n / 0x80 - 1, false);
    assert VarGroups(n, false) == high + [n % 0x80 + 0x80];
    hide VarGroups;
    NoDigits();
    if n > 0x7f { GroupsValue(n / 0x80 - 1); }
    MoreDigits(high, n % 0x80);
  }

  lemma {:induction false} GroupsSize(n: nat)
    ensures var k := |VarGroups(n, false)|; (k == 1 <==> n < 128) && (k <= 2 <==> n < 16512)
  {
    var high := if n <= 0x7f then [] else VarGroups(n / 0x80 - 1, false);
    assert VarGroups(n, false) == high + [n % 0x80 + 0x80];
    hide VarGroups;
    if n > 0x7f { GroupsSize(n / 0x80 - 1); }
  }

  // ------------------------------------------------------------ scripts

  const OP_RETURN: nat := 0x6a
  const OP_DUP: nat := 0x76
  const OP_EQUAL: nat := 0x87
  const OP_EQUALVERIFY: nat := 0x88
  const OP_HASH160: nat := 0xa9
  const OP_CHECKSIG: nat := 0xac
  const SPECIAL_SCRIPTS: nat := 6
  const MAX_SCRIPT_SIZE: nat := 10000

  type Script = seq<nat>

  /** Validity and decompression of public keys. */
  datatype Keys = Keys(isFullyValid: seq<nat> -> bool, decompress: seq<nat> -> Option<seq<nat>>)

  predicate IsToKeyID(s: Script) {
    |s| == 25 && s[0] == OP_DUP && s[1] == OP_HASH160 && s[2] == 20 && s[23] == OP_EQUALVERIFY && s[24] == OP_CHECKSIG
  }

  predicate IsToScriptID(s: Script) {
    |s| == 23 && s[0] == OP_HASH160 && s[1] == 20 && s[22] == OP_EQUAL
  }

  predicate IsToCompressedKey(s: Script) {
    |s| == 35 && s[0] == 33 && s[34] == OP_CHECKSIG && (s[1] == 2 || s[1] == 3)
  }

  predicate IsToFullKey(keys: Keys, s: Script) {
    |s| == 67 && s[0] == 65 && s[66] == OP_CHECKSIG && s[1] == 4 && keys.isFullyValid(s[1..66])
  }

  /** What Compress makes of a script of a special form. */
  function CompressedScript(keys: Keys, s: Script): Option<Stream> {
    if IsToKeyID(s) then Some([0] + s[3..23])
    else if IsToScriptID(s) then Some([1] + s[2..22])
    else if IsToCompressedKey(s) then Some([s[1]] + s[2..34])
    else if IsToFullKey(keys, s) then Some([4 + s[65] % 2] + s[2..34])
    else None
  }

  function GetSpecialSize(n: nat): nat { if n <= 1 then 20 else if n <= 5 then 32 else 0 }

  /** What Decompress makes of a special form; a key that does not decompress leaves the script empty. */
  function DecompressedScript(keys: Keys, n: nat, data: Stream): Script
    requires n < SPECIAL_SCRIPTS && |data| == GetSpecialSize(n)
  {
    if n == 0 then [OP_DUP, OP_HASH160, 20] + data + [OP_EQUALVERIFY, OP_CHECKSIG]
    else if n == 1 then [OP_HASH160, 20] + data + [OP_EQUAL]
    else if n <= 3 then [33, n] + data + [OP_CHECKSIG]
    else match keys.decompress([n - 2] + data)
      case None => []
      case Some(key) => [65] + key + [OP_CHECKSIG]
  }

  function ScriptStream(keys: Keys, s: Script): Stream {
    match CompressedScript(keys, s)
    case Some(compr) => compr
    case None => VarInt(|s| + SPECIAL_SCRIPTS) + s
  }

  function Take(s: Stream, n: nat): Option<(Stream, Stream)> {
    if n <= |s| then Some((s[..n], s[n..])) else None
  }

  function ReadScript(keys: Keys, s: Stream): Option<(Script, Stream)> {
    match ReadVarInt(s)
    case None => None
    case Some((n, s1)) =>
      if n < SPECIAL_SCRIPTS then
        match Take(s1, GetSpecialSize(n))
        case None => None
        case Some((data, rest)) => Some((DecompressedScript(keys, n, data), rest))
      else
        match Take(s1, n - SPECIAL_SCRIPTS)
        case None => None
        case Some((data, rest)) => Some((if n - SPECIAL_SCRIPTS > MAX_SCRIPT_SIZE then [OP_RETURN] else data, rest))
  }

  /** Decompressing a key gives back the full key it was compressed from, for the key of this script. */
  ghost predicate KeyInverse(keys: Keys, s: Script) {
    IsToFullKey(keys, s) ==> keys.decompress([2 + s[65] % 2] + s[2..34]) == Some(s[1..66])
  }

  lemma TakeBack(data: Stream, rest: Stream)
    ensures Take(data + rest, |data|) == Some((data, rest))
  {
    assert (data + rest)[..|data|] == data && (data + rest)[|data|..] == rest;
  }

  /** The special scripts and what is stored of them: a key hash, a script hash, or the 32 bytes of a key's first
      coordinate, after a byte that says which it is; for a full key also whether its last byte is odd. */
  lemma ScriptForms(keys: Keys, d: Stream, y: Stream)
    requires |d| == |y| == 32
    ensures CompressedScript(keys, [0x76, 0xa9, 20] + d[..20] + [0x88, 0xac]) == Some([0] + d[..20])
    ensures CompressedScript(keys, [0xa9, 20] + d[..20] + [0x87]) == Some([1] + d[..20])
    ensures CompressedScript(keys, [33, 2] + d + [0xac]) == Some([2] + d)
    ensures CompressedScript(keys, [33, 3] + d + [0xac]) == Some([3] + d)
    ensures keys.isFullyValid([4] + d + y) ==>
              CompressedScript(keys, [65, 4] + d + y + [0xac]) == Some([if y[31] % 2 == 1 then 5 else 4] + d)
  {
    if keys.isFullyValid([4] + d + y) { KeyForms(keys, d, y); }
    var k, s := [0x76, 0xa9, 20] + d[..20] + [0x88, 0xac], [0xa9, 20] + d[..20] + [0x87];
    assert k[3..23] == d[..20] && s[2..22] == d[..20];
    var a, b := [33, 2] + d + [0xac], [33, 3] + d + [0xac];
    assert a[2..34] == d && b[2..34] == d;
  }

  lemma KeyForms(keys: Keys, d: Stream, y: Stream)
    requires |d| == |y| == 32 && keys.isFullyValid([4] + d + y)
    ensures CompressedScript(keys, [65, 4] + d + y + [0xac]) == Some([if y[31] % 2 == 1 then 5 else 4] + d)
  {
    var f := [65, 4] + d + y + [0xac];
    assert f[1..66] == [4] + d + y && f[2..34] == d && f[65] == y[31];
  }

  /** What a script reads back as: itself, unless it is too long or its key does not decompress. */
  function Regained(keys: Keys, s: Script): Script {
    if IsToFullKey(keys, s) then DecompressedScript(keys, 4 + s[65] % 2, s[2..34])
    else if |s| > MAX_SCRIPT_SIZE then [OP_RETURN]
    else s
  }

  /** A special form and its kind give back the script, the full key if it decompresses. */
  lemma DecompressCompressedScript(keys: Keys, s: Script)
    requires CompressedScript(keys, s).Some?
    ensures var c := CompressedScript(keys, s).value;
            |c| > 0 && c[0] < SPECIAL_SCRIPTS && |c[1..]| == GetSpecialSize(c[0])
                && DecompressedScript(keys, c[0], c[1..]) == Regained(keys, s)
  {
    var c := CompressedScript(keys, s).value;
    if IsToKeyID(s) {
      assert c[1..] == s[3..23];
      assert s == [OP_DUP, OP_HASH160, 20] + s[3..23] + [OP_EQUALVERIFY, OP_CHECKSIG];
    } else if IsToScriptID(s) {
      assert c[1..] == s[2..22];
      assert s == [OP_HASH160, 20] + s[2..22] + [OP_EQUAL];
    } else if IsToCompressedKey(s) {
      assert c[1..] == s[2..34];
      assert s == [33, s[1]] + s[2..34] + [OP_CHECKSIG];
    } else {
      assert c[1..] == s[2..34];
    }
  }

  /** A script reads back as it was exactly if it is within the size limit and its full key, if it pays to one,
      decompresses to itself. */
  lemma RegainedIff(keys: Keys, s: Script)
    ensures Regained(keys, s) == s <==> |s| <= MAX_SCRIPT_SIZE && KeyInverse(keys, s)
  {
    if IsToFullKey(keys, s) {
      assert s == [65] + s[1..66] + [OP_CHECKSIG];
      match keys.decompress([2 + s[65] % 2] + s[2..34])
      case None =>
      case Some(key) =>
        var r := [65] + key + [OP_CHECKSIG];
        assert Regained(keys, s) == r;
        if r == s { assert key == r[1..|r| - 1] == s[1..66]; }
    }
  }

  lemma ScriptRoundTrip(keys: Keys, s: Script, rest: Stream)
    ensures ReadScript(keys, ScriptStream(keys, s) + rest) == Some((Regained(keys, s), rest))
  {
    match CompressedScript(keys, s)
    case Some(c) =>
      DecompressCompressedScript(keys, s);
      hide CompressedScript, DecompressedScript, GetSpecialSize, Regained;
      assert c + rest == [c[0]] + (c[1..] + rest);
      ReadOne(0, c[0], c[1..] + rest);
      TakeBack(c[1..], rest);
    case None =>
      var n := |s| + SPECIAL_SCRIPTS;
      assert VarInt(n) + s + rest == VarInt(n) + (s + rest);
      VarIntRoundTrip(n, s + rest);
      TakeBack(s, rest);
  }

  // ------------------------------------------------------------ outputs

  /** The amount is a signed number of 64 bits, whose word is compressed. */
  function OutStream(keys: Keys, o: TxOut): Stream { VarInt(AmountCode(o.nValue)) + ScriptStream(keys, o.script) }

  function ReadOut(keys: Keys, s: Stream): Option<(TxOut, Stream)> {
    match ReadVarInt(s)
    case None => None
    case Some((n, s1)) =>
      match ReadScript(keys, s1)
      case None => None
      case Some((script, rest)) => Some((TxOut(CodeAmount(n), script), rest))
  }

  /** What an unspent output reads back as. */
  function RegainedOut(keys: Keys, o: TxOut): TxOut {
    TxOut(CodeAmount(AmountCode(o.nValue)), Regained(keys, o.script))
  }

  /** An output that reads back as it was. */
  ghost predicate Lasting(keys: Keys, o: TxOut) {
    Survives(o.nValue) && |o.script| <= MAX_SCRIPT_SIZE && KeyInverse(keys, o.script)
  }

  lemma OutRoundTrip(keys: Keys, o: TxOut, rest: Stream)
    ensures ReadOut(keys, OutStream(keys, o) + rest) == Some((RegainedOut(keys, o), rest))
    ensures ReadOut(keys, OutStream(keys, o) + rest) == Some((o, rest)) <==> Lasting(keys, o)
  {
    hide VarInt, ReadVarInt, ScriptStream, ReadScript, AmountCode, CodeAmount, Survives, Regained, KeyInverse;
    var n, script := AmountCode(o.nValue), ScriptStream(keys, o.script);
    assert VarInt(n) + script + rest == VarInt(n) + (script + rest);
    VarIntRoundTrip(n, script + rest);
    ScriptRoundTrip(keys, o.script, rest);
    AmountIff(o.nValue);
    RegainedIff(keys, o.script);
  }

  method WriteOut(keys: Keys, o: TxOut) returns (s: Stream)
    ensures s == OutStream(keys, o)
  {
    hide Compressed;
    var nVal := CompressAmount(Wrap(o.nValue));
    s := VarInt(nVal) + ScriptStream(keys, o.script);
  }

  method LoadOut(keys: Keys, s: Stream) returns (r: Option<(TxOut, Stream)>)
    ensures r == ReadOut(keys, s)
  {
    hide Decompressed;
    match ReadVarInt(s)
    case None => return None;
    case Some((n, s1)) =>
      var nValue := DecompressAmount(Wrap(n));
      match ReadScript(keys, s1)
      case None => return None;
      case Some((script, rest)) => return Some((TxOut(Signed(nValue), script), rest));
  }
}
