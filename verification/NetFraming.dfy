/** Message framing between two nodes: the send queue with partial sends, and the incremental
    receiver that is fed arbitrary pieces of the byte stream. A byte is a number below 256; the
    message hash and the answers of the socket are parameters. */
module NetFraming {

  type Bytes = seq<nat>

  const MESSAGE_START_SIZE: nat := 4
  const COMMAND_SIZE: nat := 12
  const HEADER_SIZE: nat := 24
  const MAX_SIZE: nat := 0x0200_0000
  const MAX_PROTOCOL_MESSAGE_LENGTH: nat := 4 * 1000 * 1000

  function Min(a: nat, b: nat): nat { if a < b then a else b }

  // ------------------------------------------------------------ the wire format

  function WriteWord(n: nat): (b: Bytes)
    ensures |b| == 4
  {
    var n1 := n / 0x100;
    var n2 := n1 / 0x100;
    var n3 := n2 / 0x100;
    [n % 0x100, n1 % 0x100, n2 % 0x100, n3 % 0x100]
  }

  function ReadWord(b: Bytes): nat
    requires |b| == 4
  {
    b[0] + 0x100 * b[1] + 0x1_0000 * b[2] + 0x100_0000 * b[3]
  }

  lemma ReadWritten(n: nat)
    requires n < 0x1_0000_0000
    ensures ReadWord(WriteWord(n)) == n
  {
  }

  /** A word of 32 bits is written with its low byte first. */
  lemma LowByteFirst(n: nat)
    requires n < 0x1_0000_0000
    ensures var b := WriteWord(n);
            && (forall i :: 0 <= i < 4 ==> b[i] < 256)
            && n == b[0] + 256 * (b[1] + 256 * (b[2] + 256 * b[3]))
  {
  }

  /** A command, padded with zeros. */
  function Padded(command: Bytes): (b: Bytes)
    requires |command| <= COMMAND_SIZE
    ensures |b| == COMMAND_SIZE
  {
    command + seq(COMMAND_SIZE - |command|, _ => 0)
  }

  /** The command up to its first zero. */
  function UpToZero(b: Bytes): Bytes {
    if b == [] || b[0] == 0 then [] else [b[0]] + UpToZero(b[1..])
  }

  lemma {:induction false} UpToZeroPadded(command: Bytes, zeros: Bytes)
    requires (forall i :: 0 <= i < |command| ==> command[i] != 0) && (zeros == [] || zeros[0] == 0)
    ensures UpToZero(command + zeros) == command
  {
    if command == [] {
      assert command + zeros == zeros;
    } else {
      assert (command + zeros)[1..] == command[1..] + zeros;
      UpToZeroPadded(command[1..], zeros);
    }
  }

  /** A message on the wire: its 24 header bytes, then its payload. */
  datatype Frame = Frame(header: Bytes, payload: Bytes)

  function SizeField(header: Bytes): nat
    requires |header| == HEADER_SIZE
  {
    ReadWord(header[16..20])
  }

  ghost predicate Wellformed(f: Frame) {
    |f.header| == HEADER_SIZE && SizeField(f.header) == |f.payload| <= MAX_PROTOCOL_MESSAGE_LENGTH
  }

  function Concat(fs: seq<Frame>): Bytes {
    if fs == [] then [] else fs[0].header + fs[0].payload + Concat(fs[1..])
  }

  /** The frames a stream consists of, what is left over, and whether no header announces too much. */
  datatype Parsed = Parsed(frames: seq<Frame>, rest: Bytes, ok: bool)

  function Parse(s: Bytes): Parsed
    decreases |s|
  {
    if |s| < HEADER_SIZE then Parsed([], s, true) else
      var size := SizeField(s[..HEADER_SIZE]);
      if size > MAX_PROTOCOL_MESSAGE_LENGTH then Parsed([], s, false)
      else if |s| < HEADER_SIZE + size then Parsed([], s, true)
      else
        var more := Parse(s[HEADER_SIZE + size..]);
        more.(frames := [Frame(s[..HEADER_SIZE], s[HEADER_SIZE..HEADER_SIZE + size])] + more.frames)
  }

  /** Frames at the front of a stream are parsed off whole. */
  lemma {:induction false} ParseConcat(fs: seq<Frame>, tail: Bytes)
    requires forall i :: 0 <= i < |fs| ==> Wellformed(fs[i])
    ensures var p := Parse(tail); Parse(Concat(fs) + tail) == p.(frames := fs + p.frames)
  {
    hide Parse, Wellformed;
    if fs == [] {
      assert Concat(fs) + tail == tail && fs + Parse(tail).frames == Parse(tail).frames;
    } else {
      var h, d, rest := fs[0].header, fs[0].payload, Concat(fs[1..]) + tail;
      ParseOne(fs[0], rest);
      assert Concat(fs) + tail == h + d + rest;
      ParseConcat(fs[1..], tail);
      assert fs + Parse(tail).frames == [fs[0]] + (fs[1..] + Parse(tail).frames);
    }
  }

  lemma ParseOne(f: Frame, rest: Bytes)
    requires Wellformed(f)
    ensures var p := Parse(rest); Parse(f.header + f.payload + rest) == p.(frames := [f] + p.frames)
  {
    var s, end := f.header + f.payload + rest, HEADER_SIZE + |f.payload|;
    assert s[..HEADER_SIZE] == f.header && s[HEADER_SIZE..end] == f.payload && s[end..] == rest;
  }

  /** A header that announces too much, after whole frames, is noticed whatever follows. */
  lemma ParseOversized(fs: seq<Frame>, header: Bytes, more: Bytes)
    requires (forall i :: 0 <= i < |fs| ==> Wellformed(fs[i])) && |header| == HEADER_SIZE
    requires SizeField(header) > MAX_PROTOCOL_MESSAGE_LENGTH
    ensures !Parse(Concat(fs) + (header + more)).ok
  {
    ParseConcat(fs, header + more);
    assert (header + more)[..HEADER_SIZE] == header;
  }

  /** A part of one frame is left over. */
  lemma ParsePartial(f: Frame, part: Bytes)
    requires Wellformed(f) && part <= f.header + f.payload && |part| < HEADER_SIZE + |f.payload|
    ensures Parse(part) == Parsed([], part, true)
  {
    if |part| >= HEADER_SIZE { assert part[..HEADER_SIZE] == f.header; }
  }

  /** Whatever part of a stream of frames has arrived, it parses to the first of them, in order, and a part of the
      next. */
  lemma {:induction false} ParsePrefix(fs: seq<Frame>, s: Bytes)
    requires (forall i :: 0 <= i < |fs| ==> Wellformed(fs[i])) && s <= Concat(fs)
    ensures var p := Parse(s);
            && p.ok && p.frames <= fs && s == Concat(p.frames) + p.rest
            && if |p.frames| == |fs| then p.rest == []
               else p.rest < fs[|p.frames|].header + fs[|p.frames|].payload
  {
    if fs != [] {
      var f, first := fs[0], fs[0].header + fs[0].payload;
      if |s| < |first| {
        assert s <= first;
        ParsePartial(f, s);
        assert s == Concat([]) + s;
      } else {
        var s' := s[|first|..];
        assert s == f.header + f.payload + s';
        assert s' <= Concat(fs[1..]);
        ParsePrefix(fs[1..], s');
        PrefixStep(fs, s, s', Parse(s'));
      }
    }
  }

  lemma PrefixStep(fs: seq<Frame>, s: Bytes, s': Bytes, p': Parsed)
    requires fs != [] && Wellformed(fs[0]) && s == fs[0].header + fs[0].payload + s' && p' == Parse(s')
    requires p'.ok && p'.frames <= fs[1..] && s' == Concat(p'.frames) + p'.rest
    ensures var p := Parse(s);
            && p == p'.(frames := [fs[0]] + p'.frames) && p.frames <= fs && s == Concat(p.frames) + p.rest
            && |p.frames| == |p'.frames| + 1
  {
    hide Parse;
    var f := fs[0];
    ParseOne(f, s');
    assert fs == [f] + fs[1..];
    assert ([f] + p'.frames)[1..] == p'.frames;
    assert f.header + f.payload + (Concat(p'.frames) + p'.rest) == f.header + f.payload + Concat(p'.frames) + p'.rest;
  }

  // ------------------------------------------------------------ a message being received

  /** CNetMessage. `hashed` is what has been fed to the hasher. */
  datatype NetMessage = NetMessage(
    inData: bool,
    hdrbuf: Bytes,
    nHdrPos: nat,
    vRecv: Bytes,
    nDataPos: nat,
    hashed: Bytes)

  function NewMessage(): NetMessage {
    NetMessage(false, seq(HEADER_SIZE, _ => 0), 0, [], 0, [])
  }

  predicate Complete(m: NetMessage)
    requires |m.hdrbuf| == HEADER_SIZE
  {
    m.inData && SizeField(m.hdrbuf) == m.nDataPos
  }

  /** A message that can still be fed, or is complete. */
  ghost predicate Sound(m: NetMessage) {
    && |m.hdrbuf| == HEADER_SIZE && m.nDataPos <= |m.vRecv| && m.hashed == m.vRecv[..m.nDataPos]
    && (if m.inData then m.nHdrPos == HEADER_SIZE && |m.vRecv| <= SizeField(m.hdrbuf) <= MAX_PROTOCOL_MESSAGE_LENGTH
        else m.nHdrPos < HEADER_SIZE && m.vRecv == [])
  }

  /** The bytes a message has absorbed. */
  ghost function Absorbed(m: NetMessage): Bytes
    requires m.nHdrPos <= |m.hdrbuf| && m.nDataPos <= |m.vRecv|
  {
    m.hdrbuf[..m.nHdrPos] + m.vRecv[..m.nDataPos]
  }

  /** memcpy of `src` to position `pos` of a buffer. */
  function Overwrite(buf: Bytes, pos: nat, src: Bytes): (r: Bytes)
    requires pos + |src| <= |buf|
    ensures |r| == |buf| && r[..pos] == buf[..pos] && r[pos..pos + |src|] == src
  {
    buf[..pos] + src + buf[pos + |src|..]
  }

  function Resized(buf: Bytes, n: nat): (r: Bytes)
    ensures |r| == n
    ensures |buf| <= n ==> buf <= r
  {
    if n <= |buf| then buf[..n] else buf + seq(n - |buf|, _ => 0)
  }

  /** Takes what is missing of the header. Answers how many bytes it took, or -1 for an impossible size. */
  method ReadHeader(m: NetMessage, pch: Bytes) returns (m': NetMessage, handled: int)
    requires Sound(m) && !m.inData && pch != []
    ensures |m'.hdrbuf| == HEADER_SIZE && m'.nHdrPos <= HEADER_SIZE && m'.vRecv == m.vRecv && m'.nDataPos == m.nDataPos
            && m'.hashed == m.hashed
    ensures var n := Min(HEADER_SIZE - m.nHdrPos, |pch|);
            && m'.nHdrPos == m.nHdrPos + n && Absorbed(m') == Absorbed(m) + pch[..n]
            && (handled < 0 <==> m'.nHdrPos == HEADER_SIZE && SizeField(m'.hdrbuf) > MAX_SIZE)
            && (handled >= 0 ==> handled == n && m'.inData == (m'.nHdrPos == HEADER_SIZE))
  {
    var nRemaining := HEADER_SIZE - m.nHdrPos;
    var nCopy := Min(nRemaining, |pch|);
    var hdrbuf := Overwrite(m.hdrbuf, m.nHdrPos, pch[..nCopy]);
    m' := m.(hdrbuf := hdrbuf, nHdrPos := m.nHdrPos + nCopy);
    assert hdrbuf[..m.nHdrPos + nCopy] == hdrbuf[..m.nHdrPos] + hdrbuf[m.nHdrPos..m.nHdrPos + nCopy];
    if m'.nHdrPos < HEADER_SIZE { return m', nCopy; }
    if SizeField(m'.hdrbuf) > MAX_SIZE { return m', -1; }
    m' := m'.(inData := true);
    return m', nCopy;
  }

  /** Takes what is missing of the payload, with the buffer grown at most 256 KiB ahead and never beyond the message. */
  method ReadData(m: NetMessage, pch: Bytes) returns (m': NetMessage, handled: int)
    requires Sound(m) && m.inData && pch != []
    ensures Sound(m') && m'.inData && m'.hdrbuf == m.hdrbuf
    ensures var n := Min(SizeField(m.hdrbuf) - m.nDataPos, |pch|);
            handled == n && m'.nDataPos == m.nDataPos + n && Absorbed(m') == Absorbed(m) + pch[..n]
  {
    var size := SizeField(m.hdrbuf);
    var nRemaining := size - m.nDataPos;
    var nCopy := Min(nRemaining, |pch|);
    var vRecv := m.vRecv;
    if |vRecv| < m.nDataPos + nCopy {
      vRecv := Resized(vRecv, Min(size, m.nDataPos + nCopy + 256 * 1024));
      assert vRecv[..m.nDataPos] == m.vRecv[..m.nDataPos];
    }
    var data := Overwrite(vRecv, m.nDataPos, pch[..nCopy]);
    assert data[..m.nDataPos + nCopy] == data[..m.nDataPos] + data[m.nDataPos..m.nDataPos + nCopy];
    m' := m.(vRecv := data, nDataPos := m.nDataPos + nCopy, hashed := m.hashed + pch[..nCopy]);
    return m', nCopy;
  }

  // ------------------------------------------------------------ the list of received messages

  /** All messages are sound, and all but the last are complete. */
  ghost predicate SoundList(ms: seq<NetMessage>) {
    forall i :: 0 <= i < |ms| ==> Sound(ms[i]) && (i < |ms| - 1 ==> Complete(ms[i]))
  }

  /** Every byte the list has absorbed, in order. */
  ghost function Stream(ms: seq<NetMessage>): Bytes
    requires SoundList(ms)
  {
    if ms == [] then [] else Stream(ms[..|ms| - 1]) + Absorbed(ms[|ms| - 1])
  }

  function FrameOf(m: NetMessage): Frame { Frame(m.hdrbuf, m.vRecv) }

  /** The messages that have come in whole. */
  ghost function Delivered(ms: seq<NetMessage>): seq<Frame>
    requires SoundList(ms)
  {
    if ms == [] then []
    else if Complete(ms[|ms| - 1]) then Delivered(ms[..|ms| - 1]) + [FrameOf(ms[|ms| - 1])]
    else Delivered(ms[..|ms| - 1])
  }

  ghost function Pending(ms: seq<NetMessage>): Bytes
    requires SoundList(ms)
  {
    if ms == [] || Complete(ms[|ms| - 1]) then [] else Absorbed(ms[|ms| - 1])
  }

  /** A complete message holds exactly the payload its header announces, and that is what has been hashed. */
  lemma CompleteFrame(m: NetMessage)
    requires Sound(m) && Complete(m)
    ensures Wellformed(FrameOf(m)) && Absorbed(m) == m.hdrbuf + m.vRecv && m.hashed == m.vRecv
  {
  }

  lemma {:induction false} ConcatAppend(fs: seq<Frame>, f: Frame)
    ensures Concat(fs + [f]) == Concat(fs) + (f.header + f.payload)
  {
    if fs == [] {
      assert fs + [f] == [f];
    } else {
      assert (fs + [f])[1..] == fs[1..] + [f];
      ConcatAppend(fs[1..], f);
      assert fs[0].header + fs[0].payload + (Concat(fs[1..]) + (f.header + f.payload)) == fs[0].header + fs[0].payload
          + Concat(fs[1..]) + (f.header + f.payload);
    }
  }

  lemma AllComplete(ms: seq<NetMessage>)
    requires SoundList(ms) && ms != []
    ensures SoundList(ms[..|ms| - 1]) && (|ms| > 1 ==> Complete(ms[|ms| - 2]))
  {
  }

  /** The stream is the delivered frames followed by what is pending. */
  lemma {:induction false} StreamSplits(ms: seq<NetMessage>)
    requires SoundList(ms)
    ensures Stream(ms) == Concat(Delivered(ms)) + Pending(ms)
    ensures forall i :: 0 <= i < |Delivered(ms)| ==> Wellformed(Delivered(ms)[i])
  {
    if ms != [] {
      var front, last := ms[..|ms| - 1], ms[|ms| - 1];
      AllComplete(ms);
      StreamSplits(front);
      assert Stream(front) == Concat(Delivered(front));
      if Complete(last) {
        CompleteFrame(last);
        ConcatAppend(Delivered(front), FrameOf(last));
      }
    }
  }

  lemma PendingParsed(ms: seq<NetMessage>)
    requires SoundList(ms)
    ensures Parse(Pending(ms)) == Parsed([], Pending(ms), true)
  {
    if ms != [] && !Complete(ms[|ms| - 1]) {
      var m := ms[|ms| - 1];
      if m.inData {
        assert Absorbed(m)[..HEADER_SIZE] == m.hdrbuf;
        assert |Absorbed(m)| == HEADER_SIZE + m.nDataPos;
      }
    }
  }

  /** The list of messages is what the stream parses to, however it was cut into pieces. */
  lemma ListParses(ms: seq<NetMessage>)
    requires SoundList(ms)
    ensures Parse(Stream(ms)) == Parsed(Delivered(ms), Pending(ms), true)
  {
    StreamSplits(ms);
    PendingParsed(ms);
    ParseConcat(Delivered(ms), Pending(ms));
    assert Delivered(ms) + [] == Delivered(ms);
  }

  /** A list whose last message has an oversized header: the stream is beyond repair. */
  lemma OversizedList(front: seq<NetMessage>, header: Bytes, more: Bytes)
    requires SoundList(front) && (front != [] ==> Complete(front[|front| - 1])) && |header| == HEADER_SIZE
    requires SizeField(header) > MAX_PROTOCOL_MESSAGE_LENGTH
    ensures !Parse(Stream(front) + header + more).ok
  {
    StreamSplits(front);
    ParseOversized(Delivered(front), header, more);
    assert Concat(Delivered(front)) + [] == Concat(Delivered(front));
    assert Concat(Delivered(front)) + header + more == Concat(Delivered(front)) + (header + more);
  }

  /** Adding a message that has absorbed nothing changes nothing. */
  lemma PushNew(ms: seq<NetMessage>)
    requires SoundList(ms) && (ms != [] ==> Complete(ms[|ms| - 1]))
    ensures var ms' := ms + [NewMessage()];
            SoundList(ms') && Stream(ms') == Stream(ms) && Delivered(ms') == Delivered(ms) && !Complete(ms'[|ms|])
  {
    var ms' := ms + [NewMessage()];
    assert ms'[..|ms|] == ms;
    assert Absorbed(NewMessage()) == [];
    assert Stream(ms) + [] == Stream(ms);
  }

  /** The last message is replaced by itself with more bytes. */
  lemma FedLast(ms: seq<NetMessage>, m: NetMessage, n: Bytes)
    requires SoundList(ms) && ms != [] && !Complete(ms[|ms| - 1]) && Sound(m)
             && Absorbed(m) == Absorbed(ms[|ms| - 1]) + n
    ensures var ms' := ms[|ms| - 1 := m];
            && SoundList(ms') && Stream(ms') == Stream(ms) + n
            && |Delivered(ms')| == |Delivered(ms)| + if Complete(m) then 1 else 0
  {
    var ms', front, a := ms[|ms| - 1 := m], ms[..|ms| - 1], Absorbed(ms[|ms| - 1]);
    assert ms'[..|ms| - 1] == front;
    AllComplete(ms);
    assert Stream(front) + a + n == Stream(front) + (a + n);
  }

  /** The last message now has an oversized header. */
  lemma SpoiltLast(ms: seq<NetMessage>, m: NetMessage, n: nat, pch: Bytes)
    requires SoundList(ms) && ms != [] && !Complete(ms[|ms| - 1]) && n <= |pch|
    requires |m.hdrbuf| == m.nHdrPos == HEADER_SIZE && m.nDataPos == 0
             && Absorbed(m) == Absorbed(ms[|ms| - 1]) + pch[..n]
    requires SizeField(m.hdrbuf) > MAX_PROTOCOL_MESSAGE_LENGTH
    ensures !Parse(Stream(ms) + pch).ok
  {
    hide Parse, SizeField, Complete;
    var front := ms[..|ms| - 1];
    AllComplete(ms);
    OversizedList(front, m.hdrbuf, pch[n..]);
    assert m.hdrbuf == Absorbed(m);
    assert pch == pch[..n] + pch[n..];
    Reassociate(Stream(front), Absorbed(ms[|ms| - 1]), pch[..n], pch[n..]);
  }

  lemma Reassociate(a: Bytes, b: Bytes, c: Bytes, d: Bytes)
    ensures a + b + (c + d) == a + (b + c) + d
  {
  }

  // ------------------------------------------------------------ the send queue

  function Flatten(q: seq<Bytes>): Bytes {
    if q == [] then [] else q[0] + Flatten(q[1..])
  }

  function TotalSize(q: seq<Bytes>): nat {
    if q == [] then 0 else |q[0]| + TotalSize(q[1..])
  }

  ghost predicate NoneEmpty(q: seq<Bytes>) {
    forall i :: 0 <= i < |q| ==> q[i] != []
  }

  lemma {:induction false} FlattenAppend(q: seq<Bytes>, d: Bytes)
    ensures Flatten(q + [d]) == Flatten(q) + d && TotalSize(q + [d]) == TotalSize(q) + |d|
  {
    if q == [] {
      assert q + [d] == [d];
    } else {
      assert (q + [d])[1..] == q[1..] + [d];
      FlattenAppend(q[1..], d);
    }
  }

  /** A message to be sent. */
  datatype Outgoing = Outgoing(command: Bytes, data: Bytes)

  function Header(start: Bytes, command: Bytes, size: nat, checksum: Bytes): (h: Bytes)
    requires |start| == MESSAGE_START_SIZE && |command| <= COMMAND_SIZE && |checksum| == 4
    ensures |h| == HEADER_SIZE
  {
    start + Padded(command) + WriteWord(size) + checksum
  }

  /** The command fits, and the checksum has four bytes. */
  predicate Frameable(hash: Bytes -> Bytes, msg: Outgoing) {
    |msg.command| <= COMMAND_SIZE && |hash(msg.data)| == 4
  }

  /** What PushMessage puts on the wire for a message: `hash` gives the first four bytes of the message hash. */
  function Framed(start: Bytes, hash: Bytes -> Bytes, msg: Outgoing): Frame
    requires |start| == MESSAGE_START_SIZE && Frameable(hash, msg)
  {
    Frame(Header(start, msg.command, |msg.data|, hash(msg.data)), msg.data)
  }

  ghost predicate Sendable(hash: Bytes -> Bytes, msg: Outgoing) {
    && Frameable(hash, msg) && (forall i :: 0 <= i < |msg.command| ==> msg.command[i] != 0)
    && |msg.data| <= MAX_PROTOCOL_MESSAGE_LENGTH
  }

  /** Everything that was put into a frame can be read back from its bytes. */
  lemma FramedFields(start: Bytes, hash: Bytes -> Bytes, msg: Outgoing)
    requires |start| == MESSAGE_START_SIZE && Sendable(hash, msg)
    ensures var f := Framed(start, hash, msg);
            && Wellformed(f) && f.header[..4] == start && UpToZero(f.header[4..16]) == msg.command
            && f.header[20..24] == hash(f.payload) && f.payload == msg.data
            && |msg.data| == f.header[16] + 256 * (f.header[17] + 256 * (f.header[18] + 256 * f.header[19]))
  {
    LowByteFirst(|msg.data|);
    var f := Framed(start, hash, msg);
    assert f.header[..4] == start && f.header[4..16] == Padded(msg.command);
    assert f.header[16..20] == WriteWord(|msg.data|) && f.header[20..24] == hash(msg.data);
    ReadWritten(|msg.data|);
    UpToZeroPadded(msg.command, seq(COMMAND_SIZE - |msg.command|, _ => 0));
  }

  function FramedAll(start: Bytes, hash: Bytes -> Bytes, msgs: seq<Outgoing>): (fs: seq<Frame>)
    requires |start| == MESSAGE_START_SIZE && forall i :: 0 <= i < |msgs| ==> Frameable(hash, msgs[i])
    ensures |fs| == |msgs| && forall i :: 0 <= i < |fs| ==> fs[i] == Framed(start, hash, msgs[i])
  {
    if msgs == [] then [] else FramedAll(start, hash, msgs[..|msgs| - 1]) + [Framed(start, hash, msgs[|msgs| - 1])]
  }

  /** End to end: if what a receiver has absorbed is a part of what was pushed, then the messages it delivers are
      the first of those pushed, in order, with exact commands and payloads and matching checksums. */
  lemma DeliveredInOrder(start: Bytes, hash: Bytes -> Bytes, msgs: seq<Outgoing>, ms: seq<NetMessage>)
    requires |start| == MESSAGE_START_SIZE && forall i :: 0 <= i < |msgs| ==>
               Frameable(hash, msgs[i]) && Sendable(hash, msgs[i])
    requires SoundList(ms) && Stream(ms) <= Concat(FramedAll(start, hash, msgs))
    ensures var d := Delivered(ms);
            && |d| <= |msgs|
            && (forall i :: 0 <= i < |d| ==>
                  && |d[i].header| == HEADER_SIZE && d[i].payload == msgs[i].data
                     && UpToZero(d[i].header[4..16]) == msgs[i].command
                  && d[i].header[..4] == start && d[i].header[20..24] == hash(msgs[i].data))
            && (Stream(ms) == Concat(FramedAll(start, hash, msgs)) ==> |d| == |msgs| && Pending(ms) == [])
  {
    var fs, d := FramedAll(start, hash, msgs), Delivered(ms);
    forall i | 0 <= i < |fs|
      ensures Wellformed(fs[i])
    {
      FramedFields(start, hash, msgs[i]);
    }
    ListParses(ms);
    ParsePrefix(fs, Stream(ms));
    forall i | 0 <= i < |d|
      ensures |d[i].header| == HEADER_SIZE && d[i].payload == msgs[i].data
              && UpToZero(d[i].header[4..16]) == msgs[i].command
      ensures d[i].header[..4] == start && d[i].header[20..24] == hash(msgs[i].data)
    {
      FramedFields(start, hash, msgs[i]);
      assert d[i] == fs[i];
    }
    if Stream(ms) == Concat(fs) {
      ParseConcat(fs, []);
      assert Concat(fs) + [] == Concat(fs) && fs + Parse([]).frames == fs;
    }
  }

  // ------------------------------------------------------------ the node

  /** The framing part of CNode. `sent` is every byte the socket has taken, `pushed` every byte queued so far. */
  class CNode {
    var vRecvMsg: seq<NetMessage>
    var vSendMsg: seq<Bytes>
    var nSendOffset: nat
    var nSendSize: nat
    var nSendBytes: nat
    var fPauseSend: bool
    var fSocketOpen: bool
    const nSendBufferMaxSize: nat
    var sent: Bytes
    ghost var pushed: Bytes

    constructor (nSendBufferMaxSize: nat)
      ensures this.nSendBufferMaxSize == nSendBufferMaxSize && ValidSend() && SoundList(vRecvMsg)
      ensures Stream(vRecvMsg) == [] && sent == [] && pushed == []
    {
      vRecvMsg, vSendMsg, nSendOffset, nSendSize, nSendBytes := [], [], 0, 0, 0;
      fPauseSend, fSocketOpen := false, true;
      this.nSendBufferMaxSize := nSendBufferMaxSize;
      sent, pushed := [], [];
    }

    /** Feeds a piece of the stream. It fails exactly when the stream so far holds an oversized header; otherwise
        the piece has been absorbed, and `complete` says whether a message was finished by it. The caller drops the
        connection on failure, so only a sound list is ever fed again. */
    method ReceiveMsgBytes(chunk: Bytes) returns (ok: bool, complete: bool)
      requires SoundList(vRecvMsg)
      modifies `vRecvMsg
      ensures ok == Parse(old(Stream(vRecvMsg)) + chunk).ok
      ensures ok ==> SoundList(vRecvMsg) && Stream(vRecvMsg) == old(Stream(vRecvMsg)) + chunk
      ensures ok ==> (complete <==> |Delivered(vRecvMsg)| > |old(Delivered(vRecvMsg))|)
    {
      hide Parse, Stream, Delivered, SoundList;
      complete := false;
      var pos := 0;
      assert chunk[..pos] == [];
      while pos < |chunk|
        invariant 0 <= pos <= |chunk| && SoundList(vRecvMsg)
        invariant Stream(vRecvMsg) == old(Stream(vRecvMsg)) + chunk[..pos]
        invariant |Delivered(vRecvMsg)| >= |old(Delivered(vRecvMsg))|
        invariant complete <==> |Delivered(vRecvMsg)| > |old(Delivered(vRecvMsg))|
        decreases |chunk| - pos
      {
        ghost var before := Stream(vRecvMsg);
        var handled, done := Absorb(chunk[pos..]);
        if handled < 0 {
          assert before + chunk[pos..] == old(Stream(vRecvMsg)) + chunk;
          return false, complete;
        }
        assert chunk[..pos + handled] == chunk[..pos] + chunk[pos..][..handled];
        pos := pos + handled;
        if done { complete := true; }
      }
      assert chunk[..pos] == chunk;
      ListParses(vRecvMsg);
      return true, complete;
    }

    /** One turn of the loop: the current message, or a new one, takes what it can. */
    method Absorb(pch: Bytes) returns (handled: int, done: bool)
      requires SoundList(vRecvMsg) && pch != []
      modifies `vRecvMsg
      ensures handled < 0 ==> !Parse(old(Stream(vRecvMsg)) + pch).ok
      ensures handled >= 0 ==>
                0 < handled <= |pch| && SoundList(vRecvMsg)
                && Stream(vRecvMsg) == old(Stream(vRecvMsg)) + pch[..handled]
      ensures handled >= 0 ==> |Delivered(vRecvMsg)| == |old(Delivered(vRecvMsg))| + if done then 1 else 0
    {
      hide Parse, Stream, Delivered, Absorbed;
      if vRecvMsg == [] || Complete(vRecvMsg[|vRecvMsg| - 1]) {
        PushNew(vRecvMsg);
        vRecvMsg := vRecvMsg + [NewMessage()];
      }
      var msg := vRecvMsg[|vRecvMsg| - 1];
      var msg';
      if !msg.inData {
        msg', handled := ReadHeader(msg, pch);
      } else {
        msg', handled := ReadData(msg, pch);
      }
      if handled < 0 || (msg'.inData && SizeField(msg'.hdrbuf) > MAX_PROTOCOL_MESSAGE_LENGTH) {
        SpoiltLast(vRecvMsg, msg', HEADER_SIZE - msg.nHdrPos, pch);
        return -1, false;
      }
      FedLast(vRecvMsg, msg', pch[..handled]);
      vRecvMsg := vRecvMsg[|vRecvMsg| - 1 := msg'];
      done := Complete(msg');
    }

    /** nSendSize is the sum of the queued sizes, what was sent plus what is queued is what was pushed, and the
        pause flag says whether the queue is over its limit. */
    ghost predicate ValidSend()
      reads this
    {
      Sending(vSendMsg)
    }

    /** The same for a queue q that is left of it. */
    ghost predicate Sending(q: seq<Bytes>)
      reads this
    {
      && NoneEmpty(q) && nSendSize == TotalSize(q)
      && (if q == [] then nSendOffset == 0 else nSendOffset < |q[0]|)
      && fPauseSend == (nSendSize > nSendBufferMaxSize)
      && nSendBytes == |sent| && Conserved(sent, q, nSendOffset, pushed)
    }

    /** The socket took nBytes of the first queued piece. */
    method Took(data: Bytes, nBytes: nat, ghost q: seq<Bytes>) returns (whole: bool)
      requires Sending(q) && q != [] && data == q[0] && 0 < nBytes <= |data| - nSendOffset
      modifies `sent, `nSendBytes, `nSendOffset, `nSendSize, `fPauseSend
      ensures Sending(if whole then q[1..] else q)
      ensures old(sent) <= sent && |sent| == |old(sent)| + nBytes
      ensures whole <==> nBytes == |data| - old(nSendOffset)
      ensures nSendOffset == if whole then 0 else old(nSendOffset) + nBytes
    {
      hide Conserved, Flatten;
      SendSome(sent, q, nSendOffset, pushed, nBytes);
      sent := sent + data[nSendOffset..nSendOffset + nBytes];
      nSendBytes := nSendBytes + nBytes;
      nSendOffset := nSendOffset + nBytes;
      whole := nSendOffset == |data|;
      if whole {
        nSendOffset := 0;
        nSendSize := nSendSize - |data|;
        fPauseSend := nSendSize > nSendBufferMaxSize;
      }
    }

    /** Hands queued bytes to the socket until it refuses. `answers(k)` is what the k-th send would return if it were
        given enough bytes; any pattern of partial sends and errors is covered. It stops only at a piece that the socket
        does not take whole, and a fatal error there closes the socket. */
    method SocketSendData(answers: nat -> int, fatal: bool) returns (nSentSize: nat)
      requires ValidSend()
      modifies this
      ensures ValidSend() && pushed == old(pushed) && vRecvMsg == old(vRecvMsg)
      ensures old(sent) <= sent && nSentSize == |sent| - |old(sent)|
      ensures |vSendMsg| <= |old(vSendMsg)| && vSendMsg == old(vSendMsg)[|old(vSendMsg)| - |vSendMsg|..]
      ensures !old(fSocketOpen) ==> nSentSize == 0 && !fSocketOpen && vSendMsg == old(vSendMsg)
      ensures old(fSocketOpen) ==>
                StopsAt(old(vSendMsg), old(nSendOffset), answers, |old(vSendMsg)| - |vSendMsg|, nSendOffset)
      ensures old(fSocketOpen) ==>
                (fSocketOpen <==> vSendMsg == [] || !fatal || answers(|old(vSendMsg)| - |vSendMsg|) >= 0)
    {
      hide Conserved, Flatten;
      ghost var all := vSendMsg;
      var it := 0;
      nSentSize := 0;
      assert all[it..] == all;
      while it < |vSendMsg|
        invariant 0 <= it <= |vSendMsg| && vSendMsg == all && Sending(all[it..])
        invariant old(sent) <= sent && nSentSize == |sent| - |old(sent)| && pushed == old(pushed)
                  && vRecvMsg == old(vRecvMsg)
        invariant nSendOffset == (if it == 0 then old(nSendOffset) else 0)
        invariant fSocketOpen == old(fSocketOpen) && (!fSocketOpen ==> it == 0 && nSentSize == 0)
        invariant forall j :: 0 <= j < it ==> answers(j) >= Remaining(all, old(nSendOffset), j)
      {
        var data := vSendMsg[it];
        assert all[it..][0] == data && all[it..][1..] == all[it + 1..];
        assert |data| > nSendOffset;
        if !fSocketOpen { break; }
        var room := |data| - nSendOffset;
        var nBytes := if answers(it) > room then room else answers(it);
        if nBytes > 0 {
          var whole := Took(data, nBytes, all[it..]);
          nSentSize := nSentSize + nBytes;
          if !whole { break; }
          it := it + 1;
        } else {
          if nBytes < 0 && fatal { fSocketOpen := false; }
          break;
        }
      }
      if it == |vSendMsg| {
        assert nSendOffset == 0;
        assert nSendSize == 0;
      }
      vSendMsg := vSendMsg[it..];
    }

    method PushMessage(start: Bytes, hash: Bytes -> Bytes, msg: Outgoing, answers: nat -> int, fatal: bool)
      requires ValidSend() && |start| == MESSAGE_START_SIZE && Frameable(hash, msg)
      modifies this
      ensures ValidSend() && vRecvMsg == old(vRecvMsg) && old(sent) <= sent
      ensures var f := Framed(start, hash, msg); pushed == old(pushed) + (f.header + f.payload)
    {
      var nMessageSize := |msg.data|;
      var nTotalSize := nMessageSize + HEADER_SIZE;
      var serializedHeader := Header(start, msg.command, nMessageSize, hash(msg.data));
      var optimisticSend := vSendMsg == [];
      Enqueue(serializedHeader, msg.data, nTotalSize);
      if optimisticSend {
        var nBytesSent := SocketSendData(answers, fatal);
      }
    }

    method Enqueue(header: Bytes, data: Bytes, nTotalSize: nat)
      requires ValidSend() && header != [] && nTotalSize == |header| + |data|
      modifies this
      ensures ValidSend() && vRecvMsg == old(vRecvMsg) && sent == old(sent) && pushed == old(pushed) + (header + data)
    {
      hide Conserved, Flatten, TotalSize;
      FlattenAppend(vSendMsg, header);
      FlattenAppend(vSendMsg + [header], data);
      QueueSome(sent, vSendMsg, nSendOffset, pushed, header);
      QueueSome(sent, vSendMsg + [header], nSendOffset, pushed + header, data);
      nSendSize := nSendSize + nTotalSize;
      if nSendSize > nSendBufferMaxSize { fPauseSend := true; }
      vSendMsg := vSendMsg + [header];
      if |data| != 0 { vSendMsg := vSendMsg + [data]; }
      pushed := pushed + (header + data);
      assert old(pushed) + header + data == pushed;
      assert |data| == 0 ==> old(pushed) + header == pushed;
    }
  }

  /** What is left to send of piece k of a queue. */
  function Remaining(q: seq<Bytes>, offset: nat, k: nat): int
    requires k < |q|
  {
    |q[k]| - if k == 0 then offset else 0
  }

  /** The socket takes all pieces before k whole, and of piece k only as much as the new offset says. */
  ghost predicate StopsAt(q: seq<Bytes>, offset: nat, answers: nat -> int, k: nat, offset': nat)
    requires k <= |q|
  {
    && (forall j :: 0 <= j < k ==> answers(j) >= Remaining(q, offset, j))
    && if k == |q| then k > 0 ==> offset' == 0 else
         answers(k) < Remaining(q, offset, k)
         && offset' == (if k == 0 then offset else 0) + if answers(k) > 0 then answers(k) else 0
  }

  /** A socket that takes every piece whole gets all that was pushed; one that takes a byte gets more than it had. */
  lemma SocketTakesAll(sent: Bytes, q: seq<Bytes>, offset: nat, pushed: Bytes, answers: nat -> int, k: nat,
                       offset': nat)
    requires k <= |q| && StopsAt(q, offset, answers, k, offset')
    ensures (forall j :: 0 <= j < |q| ==> answers(j) >= Remaining(q, offset, j)) ==> k == |q|
    ensures Conserved(sent, q[k..], offset', pushed) && k == |q| && offset' == 0 ==> sent == pushed
    ensures q != [] && answers(0) > 0 ==> k > 0 || offset' > offset
  {
    assert q[|q|..] == [];
  }

  /** Sent bytes and the unsent part of the queue make up what was pushed. */
  ghost predicate Conserved(sent: Bytes, q: seq<Bytes>, offset: nat, pushed: Bytes) {
    offset <= |Flatten(q)| && sent + Flatten(q)[offset..] == pushed
  }

  lemma SendSome(sent: Bytes, q: seq<Bytes>, offset: nat, pushed: Bytes, n: nat)
    requires Conserved(sent, q, offset, pushed) && q != [] && offset + n <= |q[0]|
    ensures Conserved(sent + q[0][offset..offset + n], q, offset + n, pushed)
    ensures offset + n == |q[0]| ==> Conserved(sent + q[0][offset..offset + n], q[1..], 0, pushed)
  {
    var all := Flatten(q);
    assert all[offset..] == q[0][offset..offset + n] + all[offset + n..];
    assert sent + (q[0][offset..offset + n] + all[offset + n..]) == sent + q[0][offset..offset + n] + all[offset + n..];
    if offset + n == |q[0]| { assert all[offset + n..] == Flatten(q[1..]) == Flatten(q[1..])[0..]; }
  }

  lemma QueueSome(sent: Bytes, q: seq<Bytes>, offset: nat, pushed: Bytes, data: Bytes)
    requires Conserved(sent, q, offset, pushed)
    ensures Conserved(sent, q + [data], offset, pushed + data)
  {
    FlattenAppend(q, data);
    assert (Flatten(q) + data)[offset..] == Flatten(q)[offset..] + data;
    assert sent + (Flatten(q)[offset..] + data) == sent + Flatten(q)[offset..] + data;
  }

  /** What has been sent is always a first part of what was pushed, whatever the socket does. */
  lemma SentIsPrefix(sent: Bytes, q: seq<Bytes>, offset: nat, pushed: Bytes)
    requires Conserved(sent, q, offset, pushed)
    ensures sent <= pushed && (q == [] ==> sent == pushed)
  {
    assert pushed[..|sent|] == sent;
  }

  /** What PushMessage appends for a message is what the list of frames grows by. */
  lemma PushedGrows(start: Bytes, hash: Bytes -> Bytes, msgs: seq<Outgoing>, msg: Outgoing)
    requires |start| == MESSAGE_START_SIZE && Frameable(hash, msg)
             && forall i :: 0 <= i < |msgs| ==> Frameable(hash, msgs[i])
    ensures var f := Framed(start, hash, msg);
            Concat(FramedAll(start, hash, msgs + [msg])) == Concat(FramedAll(start, hash, msgs))
                + (f.header + f.payload)
  {
    assert (msgs + [msg])[..|msgs|] == msgs;
    ConcatAppend(FramedAll(start, hash, msgs), Framed(start, hash, msg));
  }

  /** From one node to another: whatever messages were pushed, however the socket cut them on the way out, and however
      the part that has arrived was cut on the way in, the receiver delivers the first of the messages pushed, unchanged
      and in order; and all of them once the queue is empty and everything sent has arrived. */
  lemma EndToEnd(start: Bytes, hash: Bytes -> Bytes, msgs: seq<Outgoing>, sent: Bytes, q: seq<Bytes>, offset: nat,
                 ms: seq<NetMessage>)
    requires |start| == MESSAGE_START_SIZE && forall i :: 0 <= i < |msgs| ==>
               Frameable(hash, msgs[i]) && Sendable(hash, msgs[i])
    requires Conserved(sent, q, offset, Concat(FramedAll(start, hash, msgs)))
    requires SoundList(ms) && Stream(ms) <= sent
    ensures var d := Delivered(ms);
            && |d| <= |msgs|
            && (forall i :: 0 <= i < |d| ==>
                  |d[i].header| == HEADER_SIZE && d[i].payload == msgs[i].data
                      && UpToZero(d[i].header[4..16]) == msgs[i].command)
            && (q == [] && Stream(ms) == sent ==> |d| == |msgs|)
  {
    hide Conserved, Stream, Concat, Delivered;
    SentIsPrefix(sent, q, offset, Concat(FramedAll(start, hash, msgs)));
    DeliveredInOrder(start, hash, msgs, ms);
  }

  // ------------------------------------------------------------ two nodes

  /** What can happen between two nodes: the sender pushes a message or is told that its socket can take more, or some
      more of what was sent arrives. */
  datatype Event =
    | Push(msg: Outgoing, answers: nat -> int, fatal: bool)
    | Send(answers: nat -> int, fatal: bool)
    | Arrive(n: nat)

  /** The messages pushed, in order. */
  function PushedIn(events: seq<Event>): seq<Outgoing> {
    if events == [] then [] else
      PushedIn(events[..|events| - 1]) + if events[|events| - 1].Push? then [events[|events| - 1].msg] else []
  }

  ghost predicate AllSendable(hash: Bytes -> Bytes, msgs: seq<Outgoing>) {
    forall i :: 0 <= i < |msgs| ==> Frameable(hash, msgs[i]) && Sendable(hash, msgs[i])
  }

  /** Any first part of the frames of messages is received without failure. */
  lemma ArrivesWell(start: Bytes, hash: Bytes -> Bytes, msgs: seq<Outgoing>, s: Bytes)
    requires |start| == MESSAGE_START_SIZE && AllSendable(hash, msgs) && s <= Concat(FramedAll(start, hash, msgs))
    ensures Parse(s).ok
  {
    hide Parse, Concat;
    var fs := FramedAll(start, hash, msgs);
    forall i | 0 <= i < |fs| ensures Wellformed(fs[i]) { FramedFields(start, hash, msgs[i]); }
    ParsePrefix(fs, s);
  }

  /** The first messages pushed, in order and unchanged. */
  ghost predicate InOrder(d: seq<Frame>, msgs: seq<Outgoing>) {
    && |d| <= |msgs|
    && forall i :: 0 <= i < |d| ==>
         |d[i].header| == HEADER_SIZE && d[i].payload == msgs[i].data && UpToZero(d[i].header[4..16]) == msgs[i].command
  }

  /** How the two nodes stand after some events. */
  ghost predicate Related(sender: CNode, receiver: CNode, start: Bytes, hash: Bytes -> Bytes, msgs: seq<Outgoing>)
    requires |start| == MESSAGE_START_SIZE && AllSendable(hash, msgs)
    reads sender, receiver
  {
    && sender.ValidSend() && sender.pushed == Concat(FramedAll(start, hash, msgs))
    && SoundList(receiver.vRecvMsg) && Stream(receiver.vRecvMsg) <= sender.sent
  }

  /** More of what was sent arrives; it never fails. */
  method ArriveSome(sender: CNode, receiver: CNode, n: nat, ghost start: Bytes, ghost hash: Bytes -> Bytes,
                    ghost msgs: seq<Outgoing>, arrived: nat)
    returns (arrived': nat)
    requires sender != receiver && |start| == MESSAGE_START_SIZE && AllSendable(hash, msgs)
    requires Related(sender, receiver, start, hash, msgs) && arrived == |Stream(receiver.vRecvMsg)|
    modifies receiver`vRecvMsg
    ensures Related(sender, receiver, start, hash, msgs) && arrived' == |Stream(receiver.vRecvMsg)|
    ensures arrived' == if arrived + n <= |sender.sent| then arrived + n else |sender.sent|
  {
    hide Parse, Stream, SoundList, Concat, Conserved, Delivered, Flatten, FramedAll;
    arrived' := if arrived + n <= |sender.sent| then arrived + n else |sender.sent|;
    var chunk := sender.sent[arrived..arrived'];
    ghost var was := Stream(receiver.vRecvMsg);
    assert was + chunk == sender.sent[..arrived'];
    SentIsPrefix(sender.sent, sender.vSendMsg, sender.nSendOffset, sender.pushed);
    ArrivesWell(start, hash, msgs, was + chunk);
    var ok, complete := receiver.ReceiveMsgBytes(chunk);
  }

  /** Two nodes, whatever is pushed, however the sockets cut it, and whenever it arrives: receiving never fails, the
      messages delivered are the first ones pushed, unchanged and in order, and all of them once nothing is queued or
      under way. */
  method Relay(sender: CNode, receiver: CNode, start: Bytes, hash: Bytes -> Bytes, events: seq<Event>)
    requires sender != receiver && |start| == MESSAGE_START_SIZE && AllSendable(hash, PushedIn(events))
    requires sender.ValidSend() && sender.pushed == [] && receiver.vRecvMsg == []
    modifies sender, receiver
    ensures SoundList(receiver.vRecvMsg) && InOrder(Delivered(receiver.vRecvMsg), PushedIn(events))
    ensures sender.vSendMsg == [] && |Stream(receiver.vRecvMsg)| == |sender.sent| ==>
              |Delivered(receiver.vRecvMsg)| == |PushedIn(events)|
  {
    hide Parse, Stream, SoundList, Concat, Conserved, Delivered, Flatten, FramedAll, Framed;
    ghost var msgs: seq<Outgoing> := [];
    var arrived: nat := 0;
    NothingYet(start, hash);
    SentIsPrefix(sender.sent, sender.vSendMsg, sender.nSendOffset, sender.pushed);
    assert events[..0] == [];
    for i := 0 to |events|
      invariant msgs == PushedIn(events[..i]) && AllSendable(hash, msgs)
      invariant Related(sender, receiver, start, hash, msgs) && arrived == |Stream(receiver.vRecvMsg)|
    {
      assert events[..i + 1][..i] == events[..i];
      PushedPrefix(hash, events, i + 1);
      match events[i]
      case Push(msg, answers, fatal) =>
        assert PushedIn(events[..i + 1])[|msgs|] == msg;
        PushedGrows(start, hash, msgs, msg);
        sender.PushMessage(start, hash, msg, answers, fatal);
        msgs := msgs + [msg];
      case Send(answers, fatal) =>
        var n := sender.SocketSendData(answers, fatal);
      case Arrive(n) =>
        arrived := ArriveSome(sender, receiver, n, start, hash, msgs, arrived);
    }
    assert events[..|events|] == events;
    EndToEnd(start, hash, msgs, sender.sent, sender.vSendMsg, sender.nSendOffset, receiver.vRecvMsg);
  }

  lemma NothingYet(start: Bytes, hash: Bytes -> Bytes)
    requires |start| == MESSAGE_START_SIZE
    ensures Concat(FramedAll(start, hash, [])) == [] && SoundList([]) && Stream([]) == []
  {
  }

  lemma {:induction false} PushedPrefix(hash: Bytes -> Bytes, events: seq<Event>, k: nat)
    requires k <= |events| && AllSendable(hash, PushedIn(events))
    ensures AllSendable(hash, PushedIn(events[..k]))
    decreases |events|
  {
    if k == |events| {
      assert events[..k] == events;
    } else {
      var front := events[..|events| - 1];
      assert PushedIn(front) <= PushedIn(events);
      PushedPrefix(hash, front, k);
      assert front[..k] == events[..k];
    }
  }
}
