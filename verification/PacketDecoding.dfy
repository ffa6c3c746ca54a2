/** The streaming decoder (lib/gdb-stub/packet.cpp, `Packet_decoder`): a four-state machine with error
    recovery, and what it delivers for every stream of bytes. */
module PacketDecoding {
  import opened Words
  import opened PacketText
  import opened PacketRoundTrip

  const MAX_BUFFER := 1048576

  datatype Phase = WaitingDollar | ReceivingBody | ReceivingChecksum1 | ReceivingChecksum2

  datatype DecodeError = BadChecksum | BadPacket | BufferOverflow | NoNewPacket

  type Packet = Result<Bytes, DecodeError>

  /** The decoder without its output queue. */
  datatype Decoder = Decoder(phase: Phase, buffer: Bytes, first: Byte, second: Byte)

  predicate IsAck(c: Byte) {
    c == PLUS || c == MINUS || c == CTRL_C
  }

  /** `decode_in_buffer`. */
  function DecodeBuffer(buffer: Bytes, first: Byte, second: Byte): Packet {
    var hi, lo := HexValue(first), HexValue(second);
    if hi.None? || lo.None? then Err(BadPacket)
    else if 16 * hi.value + lo.value != Checksum(buffer) then Err(BadChecksum)
    else
      match Unescape(buffer)
      case None => Err(BadPacket)
      case Some(body) => Ok(body)
  }

  /** One received byte: the next state and the results that are queued. */
  function Receive1(d: Decoder, c: Byte): (Decoder, seq<Packet>) {
    if d.phase == WaitingDollar then
      if c == DOLLAR then (d.(phase := ReceivingBody), [])
      else if IsAck(c) then (d.(buffer := []), [Ok([c])])
      else (d, [])
    else if c == DOLLAR then (d.(phase := ReceivingBody, buffer := []), [Err(BadPacket)])
    else if d.phase == ReceivingBody then
      if c == HASH then (d.(phase := ReceivingChecksum1), [])
      else if |d.buffer| >= MAX_BUFFER then (d.(phase := WaitingDollar, buffer := []), [Err(BufferOverflow)])
      else (d.(buffer := d.buffer + [c]), [])
    else if IsAck(c) then (d.(phase := WaitingDollar, buffer := []), [Err(BadPacket), Ok([c])])
    else if d.phase == ReceivingChecksum1 then (d.(phase := ReceivingChecksum2, first := c), [])
    else (d.(phase := WaitingDollar, buffer := [], second := c), [DecodeBuffer(d.buffer, d.first, c)])
  }

  function Feed(d: Decoder, input: Bytes): (Decoder, seq<Packet>) {
    if input == [] then (d, [])
    else
      var (d1, before) := Feed(d, input[..|input| - 1]);
      var (d2, now) := Receive1(d1, input[|input| - 1]);
      (d2, before + now)
  }

  class PacketDecoder {
    var inBuffer: Bytes
    var outQueue: seq<Packet>
    var outQueueAvailable: bool
    var phase: Phase
    var checksumBuffer: array<Byte>

    ghost predicate Valid()
      reads this
    {
      && checksumBuffer.Length == 2
      && (outQueueAvailable <==> outQueue != [])
    }

    ghost function Now(): Decoder
      reads this, checksumBuffer
      requires Valid()
    {
      Decoder(phase, inBuffer, checksumBuffer[0], checksumBuffer[1])
    }

    constructor ()
      ensures Valid() && fresh(checksumBuffer) && outQueue == []
      ensures phase == WaitingDollar && inBuffer == []
    {
      inBuffer, outQueue, outQueueAvailable, phase := [], [], false, WaitingDollar;
      checksumBuffer := new Byte[2](_ => 0);
    }

    method PushResult(result: Packet)
      requires Valid()
      modifies this`inBuffer, this`outQueue, this`outQueueAvailable
      ensures Valid() && outQueue == old(outQueue) + [result] && inBuffer == []
    {
      outQueue := outQueue + [result];
      outQueueAvailable := true;
      inBuffer := [];
    }

    method PushByte(c: Byte)
      requires Valid()
      modifies this`inBuffer, this`outQueue, this`outQueueAvailable, this`phase, checksumBuffer
      ensures Valid()
      ensures Now() == Receive1(old(Now()), c).0
      ensures outQueue == old(outQueue) + Receive1(old(Now()), c).1
    {
      match phase {
        case WaitingDollar =>
          if c == DOLLAR {
            phase := ReceivingBody;
          } else if c == PLUS || c == MINUS || c == CTRL_C {
            PushResult(Ok([c]));
          }
        case ReceivingBody =>
          if c == HASH {
            phase := ReceivingChecksum1;
          } else if c == DOLLAR {
            PushResult(Err(BadPacket));
            phase := ReceivingBody;
          } else if |inBuffer| >= MAX_BUFFER {
            PushResult(Err(BufferOverflow));
            phase := WaitingDollar;
          } else {
            inBuffer := inBuffer + [c];
          }
        case ReceivingChecksum1 =>
          if c == DOLLAR {
            PushResult(Err(BadPacket));
            phase := ReceivingBody;
          } else if c == PLUS || c == MINUS || c == CTRL_C {
            PushResult(Err(BadPacket));
            PushResult(Ok([c]));
            phase := WaitingDollar;
          } else {
            checksumBuffer[0] := c;
            phase := ReceivingChecksum2;
          }
        case ReceivingChecksum2 =>
          if c == DOLLAR {
            PushResult(Err(BadPacket));
            phase := ReceivingBody;
          } else if c == PLUS || c == MINUS || c == CTRL_C {
            PushResult(Err(BadPacket));
            PushResult(Ok([c]));
            phase := WaitingDollar;
          } else {
            checksumBuffer[1] := c;
            PushResult(DecodeBuffer(inBuffer, checksumBuffer[0], checksumBuffer[1]));
            phase := WaitingDollar;
          }
      }
    }

    method Push(newInput: Bytes)
      requires Valid()
      modifies this`inBuffer, this`outQueue, this`outQueueAvailable, this`phase, checksumBuffer
      ensures Valid()
      ensures Now() == Feed(old(Now()), newInput).0
      ensures outQueue == old(outQueue) + Feed(old(Now()), newInput).1
    {
      for i := 0 to |newInput|
        invariant Valid()
        invariant Now() == Feed(old(Now()), newInput[..i]).0
        invariant outQueue == old(outQueue) + Feed(old(Now()), newInput[..i]).1
      {
        PushByte(newInput[i]);
        assert newInput[..i + 1][..i] == newInput[..i];
      }
      assert newInput[..|newInput|] == newInput;
    }

    method NewPacketAvailable() returns (available: bool)
      requires Valid()
      ensures available <==> outQueue != []
    {
      available := outQueueAvailable;
    }

    method PopPacket() returns (packet: Packet)
      requires Valid()
      modifies this`outQueue, this`outQueueAvailable
      ensures Valid()
      ensures if old(outQueue) == [] then packet == Err(NoNewPacket) && outQueue == []
              else [packet] + outQueue == old(outQueue)
    {
      if outQueue == [] {
        return Err(NoNewPacket);
      }
      packet := outQueue[0];
      outQueue := outQueue[1..];
      outQueueAvailable := outQueue != [];
    }
  }

  /** `remove_escape` as the source's index loop. */
  method RemoveEscape(body: Bytes) returns (result: Option<Bytes>)
    ensures result == Unescape(body)
  {
    var decoded: Bytes := [];
    var i := 0;
    PrependNothing(decoded, Unescape(body));
    assert body[0..] == body;
    while i < |body|
      invariant 0 <= i <= |body|
      invariant Unescape(body) == Prepend(decoded, Unescape(body[i..]))
    {
      if body[i] == BRACE {
        i := i + 1;
        if i >= |body| {
          return None;
        }
        if body[i] == BRACE {
          return None;
        }
        PrependTwice(decoded, [Flip(body[i])], Unescape(body[i + 1..]));
        assert body[i - 1..][2..] == body[i + 1..];
        decoded := decoded + [Flip(body[i])];
      } else {
        PrependTwice(decoded, [body[i]], Unescape(body[i + 1..]));
        assert body[i..][1..] == body[i + 1..];
        decoded := decoded + [body[i]];
      }
      i := i + 1;
    }
    assert decoded + [] == decoded;
    return Some(decoded);
  }

  /* ---- Chunking ---- */

  lemma {:induction false} FeedConcat(d: Decoder, a: Bytes, b: Bytes)
    ensures var (d1, out1) := Feed(d, a);
            var (d2, out2) := Feed(d1, b);
            Feed(d, a + b) == (d2, out1 + out2)
  {
    hide Receive1;
    if b == [] {
      assert a + b == a;
      assert Feed(d, a).1 + [] == Feed(d, a).1;
    } else {
      var front := b[..|b| - 1];
      FeedConcat(d, a, front);
      assert (a + b)[..|a + b| - 1] == a + front;
      var (d1, out1) := Feed(d, a);
      var (d2, out2) := Feed(d1, front);
      var (d3, out3) := Receive1(d2, b[|b| - 1]);
      assert (out1 + out2) + out3 == out1 + (out2 + out3);
    }
  }

  function Join(chunks: seq<Bytes>): Bytes {
    if chunks == [] then [] else Join(chunks[..|chunks| - 1]) + chunks[|chunks| - 1]
  }

  /** `push` called once per chunk. */
  function FeedChunks(d: Decoder, chunks: seq<Bytes>): (Decoder, seq<Packet>) {
    if chunks == [] then (d, [])
    else
      var (d1, before) := FeedChunks(d, chunks[..|chunks| - 1]);
      var (d2, now) := Feed(d1, chunks[|chunks| - 1]);
      (d2, before + now)
  }

  /** How the stream is cut into chunks makes no difference. */
  lemma {:induction false} ChunkingIrrelevant(d: Decoder, chunks: seq<Bytes>)
    ensures FeedChunks(d, chunks) == Feed(d, Join(chunks))
  {
    if chunks != [] {
      var front := chunks[..|chunks| - 1];
      ChunkingIrrelevant(d, front);
      FeedConcat(d, Join(front), chunks[|chunks| - 1]);
    }
  }

  /* ---- Invariant ---- */

  predicate Reachable(d: Decoder) {
    && (d.phase == WaitingDollar ==> d.buffer == [])
    && |d.buffer| <= MAX_BUFFER
  }

  lemma {:induction false} FeedReachable(d: Decoder, input: Bytes)
    requires Reachable(d)
    ensures Reachable(Feed(d, input).0)
  {
    if input != [] {
      FeedReachable(d, input[..|input| - 1]);
    }
  }

  /* ---- Conservation ---- */

  function Open(d: Decoder): nat {
    if d.phase == WaitingDollar then 0 else 1
  }

  function Dollars(input: Bytes): nat {
    if input == [] then 0
    else Dollars(input[..|input| - 1]) + if input[|input| - 1] == DOLLAR then 1 else 0
  }

  /** Acknowledgement bytes that arrive outside a packet body. */
  function AcksOutsideBody(d: Decoder, input: Bytes): nat {
    if input == [] then 0
    else
      var front := input[..|input| - 1];
      AcksOutsideBody(d, front)
      + if IsAck(input[|input| - 1]) && Feed(d, front).0.phase != ReceivingBody then 1 else 0
  }

  /** Every `$` leads to exactly one result, delivered when its frame ends; every acknowledgement outside
      a body is a result of its own; and there are no others. */
  lemma {:induction false} FrameConservation(d: Decoder, input: Bytes)
    ensures var (after, results) := Feed(d, input);
            |results| + Open(after) == Open(d) + Dollars(input) + AcksOutsideBody(d, input)
  {
    if input != [] {
      FrameConservation(d, input[..|input| - 1]);
    }
  }

  /* ---- Queue discipline ---- */

  datatype QueueOp = PushChunk(input: Bytes) | Pop

  /** A run of `push` and `pop_packet` calls: decoder, queue, everything popped, everything ever queued. */
  datatype Session = Session(d: Decoder, queue: seq<Packet>, popped: seq<Packet>, queued: seq<Packet>)

  function RunOps(s: Session, ops: seq<QueueOp>): Session {
    if ops == [] then s
    else
      var before := RunOps(s, ops[..|ops| - 1]);
      match ops[|ops| - 1]
      case PushChunk(input) =>
        var (d, results) := Feed(before.d, input);
        Session(d, before.queue + results, before.popped, before.queued + results)
      case Pop =>
        if before.queue == [] then before
        else before.(queue := before.queue[1..], popped := before.popped + [before.queue[0]])
  }

  function Received(ops: seq<QueueOp>): Bytes {
    if ops == [] then []
    else
      var last := match ops[|ops| - 1] { case PushChunk(input) => input case Pop => [] };
      Received(ops[..|ops| - 1]) + last
  }

  /** In every interleaving of pushes and pops, the packets popped so far followed by those still queued
      are exactly the results of the bytes received so far, in order. */
  lemma {:induction false} PopsInOrder(d: Decoder, ops: seq<QueueOp>)
    ensures var s := RunOps(Session(d, [], [], []), ops);
            s.popped + s.queue == Feed(d, Received(ops)).1 && s.d == Feed(d, Received(ops)).0
  {
    hide Feed;
    if ops == [] {
      FeedNothing(d);
    } else {
      var front := ops[..|ops| - 1];
      PopsInOrder(d, front);
      var before := RunOps(Session(d, [], [], []), front);
      match ops[|ops| - 1] {
        case PushChunk(input) =>
          FeedConcat(d, Received(front), input);
          Regroup(before.popped, before.queue, Feed(before.d, input).1);
        case Pop =>
          assert Received(front) + [] == Received(front);
          if before.queue != [] {
            PopOne(before.popped, before.queue);
          }
      }
    }
  }

  lemma {:induction false} FeedNothing(d: Decoder)
    ensures Feed(d, []) == (d, [])
  {
  }

  lemma {:induction false} Regroup(x: seq<Packet>, y: seq<Packet>, z: seq<Packet>)
    ensures x + (y + z) == (x + y) + z
  {
  }

  lemma {:induction false} PopOne(popped: seq<Packet>, queue: seq<Packet>)
    requires queue != []
    ensures (popped + [queue[0]]) + queue[1..] == popped + queue
  {
    assert queue == [queue[0]] + queue[1..];
  }

  /* ---- Self-synchronisation ---- */

  lemma {:induction false} FeedBody(d: Decoder, body: Bytes)
    requires d.phase == ReceivingBody && NoRaw(body) && |d.buffer| + |body| <= MAX_BUFFER
    ensures Feed(d, body) == (d.(buffer := d.buffer + body), [])
  {
    if body == [] {
      assert d.buffer + body == d.buffer;
    } else {
      var front := body[..|body| - 1];
      FeedBody(d, front);
      var c := body[|body| - 1];
      assert c in body && forall b :: b in front ==> b in body;
      var d1 := Feed(d, front).0;
      assert Receive1(d1, c) == (d1.(buffer := d1.buffer + [c]), []);
      assert |Feed(d, body).1| == 0;
      assert (d.buffer + front) + [body[|body| - 1]] == d.buffer + body;
    }
  }

  lemma {:induction false} FeedThree(d: Decoder, a: Byte, b: Byte, c: Byte)
    ensures Feed(d, [a]) == Receive1(d, a)
    ensures var (d1, out1) := Receive1(d, a);
            var (d2, out2) := Receive1(d1, b);
            var (d3, out3) := Receive1(d2, c);
            Feed(d, [a, b, c]) == (d3, out1 + out2 + out3)
  {
    assert [a][..0] == [] && [a, b][..1] == [a] && [a, b, c][..2] == [a, b];
    assert [] + Receive1(d, a).1 == Receive1(d, a).1;
    assert Feed(d, [a]) == Receive1(d, a);
    assert Feed(d, [a, b]).0 == Receive1(Receive1(d, a).0, b).0;
  }

  /** The error that a `$` causes when it interrupts an open frame. */
  function Interrupted(d: Decoder): seq<Packet> {
    if d.phase == WaitingDollar then [] else [Err(BadPacket)]
  }

  lemma {:induction false} ShortPacketDelivered(d: Decoder, body: Bytes)
    requires Reachable(d) && NoRaw(body) && |body| <= MAX_BUFFER
    ensures var (after, results) := Feed(d, Frame(body));
            && after.phase == WaitingDollar && after.buffer == []
            && results == Interrupted(d) + [match Unescape(body)
                                            case None => Err(BadPacket)
                                            case Some(s) => Ok(s)]
  {
    var hi, lo := HexDigit(Checksum(body) / 16), HexDigit(Checksum(body) % 16);
    HexRoundTrip(Checksum(body) / 16);
    HexRoundTrip(Checksum(body) % 16);
    FeedThree(d, DOLLAR, DOLLAR, DOLLAR);
    var d1 := Feed(d, [DOLLAR]).0;
    FeedBody(d1, body);
    assert d1.buffer + body == body;
    var d2 := d1.(buffer := body);
    FeedThree(d2, HASH, hi, lo);
    FeedConcat(d, [DOLLAR], body);
    assert Interrupted(d) + [] == Interrupted(d);
    assert Feed(d, [DOLLAR] + body) == (d2, Interrupted(d));
    FeedConcat(d, [DOLLAR] + body, [HASH, hi, lo]);
    Delivered(d2, body, hi, lo);
  }

  lemma {:induction false} Delivered(d: Decoder, body: Bytes, hi: Byte, lo: Byte)
    requires d.phase == ReceivingBody && d.buffer == body
    requires hi == HexDigit(Checksum(body) / 16) && lo == HexDigit(Checksum(body) % 16)
    ensures var (after, results) := Feed(d, [HASH, hi, lo]);
            && after.phase == WaitingDollar && after.buffer == []
            && results == [match Unescape(body)
                           case None => Err(BadPacket)
                           case Some(s) => Ok(s)]
  {
    FeedThree(d, HASH, hi, lo);
    HexRoundTrip(Checksum(body) / 16);
    HexRoundTrip(Checksum(body) % 16);
  }

  /** The results of bytes that arrive between packets. */
  function AckResults(b: Bytes): seq<Packet> {
    if b == [] then []
    else
      var c := b[|b| - 1];
      AckResults(b[..|b| - 1]) + if IsAck(c) then [Ok([c])] else []
  }

  lemma {:induction false} FeedIdle(d: Decoder, b: Bytes)
    requires d.phase == WaitingDollar && d.buffer == [] && DOLLAR !in b
    ensures Feed(d, b) == (d, AckResults(b))
  {
    if b != [] {
      var front := b[..|b| - 1];
      assert b[|b| - 1] in b && forall c :: c in front ==> c in b;
      FeedIdle(d, front);
      assert AckResults(front) + [] == AckResults(front);
    }
  }

  /** One byte too many ends the frame. */
  lemma {:induction false} FeedTooLong(d: Decoder, body: Bytes)
    requires d.phase == ReceivingBody && d.buffer == [] && NoRaw(body) && |body| == MAX_BUFFER + 1
    ensures Feed(d, body) == (d.(phase := WaitingDollar), [Err(BufferOverflow)])
  {
    hide Feed, NoRaw;
    var front, last := body[..MAX_BUFFER], body[MAX_BUFFER];
    PrefixNoRaw(body, MAX_BUFFER);
    FeedBody(d, front);
    assert d.buffer + front == front && body == front + [last];
    FeedConcat(d, front, [last]);
    var over: seq<Packet> := [Err(BufferOverflow)];
    assert [] + over == over;
    var d1 := d.(buffer := front);
    FeedThree(d1, last, last, last);
    OneTooMany(d1, body);
  }

  lemma {:induction false} OneTooMany(d: Decoder, body: Bytes)
    requires NoRaw(body) && |body| == MAX_BUFFER + 1
    requires d.phase == ReceivingBody && |d.buffer| == MAX_BUFFER
    ensures Receive1(d, body[MAX_BUFFER])
         == (d.(phase := WaitingDollar, buffer := []), [Err(BufferOverflow)])
  {
    assert body[MAX_BUFFER] in body;
  }

  lemma {:induction false} PrefixNoRaw(body: Bytes, n: nat)
    requires n <= |body| && NoRaw(body)
    ensures NoRaw(body[..n]) && NoRaw(body[n..])
  {
  }

  lemma {:induction false} TrailerIsSilent(body: Bytes)
    ensures AckResults(FrameEnd(body)) == [] && DOLLAR !in FrameEnd(body)
  {
    var end := FrameEnd(body);
    HexRoundTrip(Checksum(body) / 16);
    HexRoundTrip(Checksum(body) % 16);
    assert end[..2][..1][..0] == [] && end[..2][..1] == [end[0]] && end[..2] == [end[0], end[1]];
    assert AckResults([end[0]]) == [];
    assert AckResults([end[0], end[1]]) == [];
  }

  function FrameEnd(body: Bytes): (end: Bytes)
    ensures |end| == 3
  {
    [HASH, HexDigit(Checksum(body) / 16), HexDigit(Checksum(body) % 16)]
  }

  lemma {:induction false} LongBody(d: Decoder, body: Bytes)
    requires d.phase == ReceivingBody && d.buffer == [] && NoRaw(body) && |body| > MAX_BUFFER
    ensures Feed(d, body) == (d.(phase := WaitingDollar), [Err(BufferOverflow)] + AckResults(body[MAX_BUFFER + 1..]))
  {
    hide Feed, AckResults, NoRaw;
    var front, rest := body[..MAX_BUFFER + 1], body[MAX_BUFFER + 1..];
    assert body == front + rest;
    PrefixNoRaw(body, MAX_BUFFER + 1);
    FeedTooLong(d, front);
    FeedConcat(d, front, rest);
    assert DOLLAR !in rest by {
      NoDollar(rest);
    }
    FeedIdle(d.(phase := WaitingDollar), rest);
  }

  lemma {:induction false} NoDollar(b: Bytes)
    requires NoRaw(b)
    ensures DOLLAR !in b
  {
  }

  /** From every reachable state a well-framed packet is delivered whole if it fits the buffer, and leads to an
      overflow if it does not; the decoder is idle again in any case. What follows the overflow is read as
      coming between packets. */
  lemma {:induction false} FramedPacketDelivered(d: Decoder, body: Bytes)
    requires Reachable(d) && NoRaw(body)
    ensures var (after, results) := Feed(d, Frame(body));
            && after.phase == WaitingDollar && after.buffer == []
            && results == Interrupted(d) + if |body| > MAX_BUFFER then
                                             [Err(BufferOverflow)] + AckResults(body[MAX_BUFFER + 1..])
                                           else
                                             [match Unescape(body)
                                              case None => Err(BadPacket)
                                              case Some(s) => Ok(s)]
  {
    if |body| <= MAX_BUFFER {
      ShortPacketDelivered(d, body);
    } else {
      LongPacket(d, body);
    }
  }

  lemma {:induction false} LongPacket(d: Decoder, body: Bytes)
    requires Reachable(d) && NoRaw(body) && |body| > MAX_BUFFER
    ensures var (after, results) := Feed(d, Frame(body));
            && after.phase == WaitingDollar && after.buffer == []
            && results == Interrupted(d) + ([Err(BufferOverflow)] + AckResults(body[MAX_BUFFER + 1..]))
  {
    hide Feed, AckResults, NoRaw;
    Opened(d);
    var d1 := Feed(d, [DOLLAR]).0;
    LongBody(d1, body);
    FeedConcat(d, [DOLLAR], body);
    TrailerIsSilent(body);
    var d2 := d1.(phase := WaitingDollar);
    FeedIdle(d2, FrameEnd(body));
    FeedConcat(d, [DOLLAR] + body, FrameEnd(body));
    assert Frame(body) == [DOLLAR] + body + FrameEnd(body);
    var results := Interrupted(d) + ([Err(BufferOverflow)] + AckResults(body[MAX_BUFFER + 1..]));
    assert results + [] == results;
  }

  lemma {:induction false} Opened(d: Decoder)
    requires Reachable(d)
    ensures var (after, results) := Feed(d, [DOLLAR]);
            after.phase == ReceivingBody && after.buffer == [] && results == Interrupted(d)
  {
    FeedThree(d, DOLLAR, DOLLAR, DOLLAR);
  }

  /** The byte belongs to the checksum: it neither opens a frame nor is an acknowledgement. */
  predicate IsChecksumByte(c: Byte) {
    c != 0x24 && c != 0x2b && c != 0x2d && c != 0x03
  }

  /** `h l` is a two-digit number that is, or is not, the sum of the body modulo 256. */
  ghost predicate NumberFits(body: Bytes, h: Byte, l: Byte, fits: bool) {
    exists j: nat, k: nat :: IsDigit(h, j) && IsDigit(l, k) && (16 * j + k == Sum(body) % 256) == fits
  }

  /** What is to be said of a frame `$ body # h l`. */
  ghost predicate Verdict(body: Bytes, h: Byte, l: Byte, p: Packet) {
    match p
    case Ok(s) => Unescape(body) == Some(s) && NumberFits(body, h, l, true)
    case Err(BadChecksum) => NumberFits(body, h, l, false)
    case Err(BadPacket) =>
      || (forall j: nat, k: nat :: !(IsDigit(h, j) && IsDigit(l, k)))
      || (Unescape(body).None? && NumberFits(body, h, l, true))
    case Err(_) => false
  }

  lemma {:induction false} DecodeVerdict(body: Bytes, h: Byte, l: Byte, p: Packet)
    ensures DecodeBuffer(body, h, l) == p <==> Verdict(body, h, l, p)
  {
    hide IsDigit, HexValue, Unescape;
    ChecksumIsSum(body);
    forall c: Byte, k: nat
      ensures HexValue(c) == Some(k) <==> IsDigit(c, k)
    {
      ValuesAreTable(c, k);
    }
    hide Sum, Checksum;
    var hi, lo := HexValue(h), HexValue(l);
    if hi.Some? && lo.Some? {
      assert IsDigit(h, hi.value) && IsDigit(l, lo.value);
      forall j: nat, k: nat | IsDigit(h, j) && IsDigit(l, k)
        ensures j == hi.value && k == lo.value
      {
        assert HexValue(h) == Some(j) && HexValue(l) == Some(k);
      }
    } else {
      forall j: nat, k: nat
        ensures !(IsDigit(h, j) && IsDigit(l, k))
      {
        assert HexValue(h) == Some(j) <==> IsDigit(h, j);
        assert HexValue(l) == Some(k) <==> IsDigit(l, k);
      }
    }
  }

  /** For every frame, right or wrong: whatever two characters follow the `#`, the decoder's verdict is the one
      that the sum of the body and the escapes call for, and it is the only one. */
  lemma {:induction false} FrameVerdict(d: Decoder, body: Bytes, h: Byte, l: Byte)
    requires Reachable(d) && NoRaw(body) && |body| <= MAX_BUFFER && IsChecksumByte(h) && IsChecksumByte(l)
    ensures var (after, results) := Feed(d, [0x24] + body + [0x23, h, l]);
            && after.phase == WaitingDollar && after.buffer == []
            && |results| == |Interrupted(d)| + 1 && results[..|Interrupted(d)|] == Interrupted(d)
            && Verdict(body, h, l, results[|Interrupted(d)|])
            && forall p :: Verdict(body, h, l, p) ==> p == results[|Interrupted(d)|]
  {
    hide Feed, Reachable, NoRaw, DecodeBuffer, Verdict;
    FeedOpening(d, body);
    var d1 := Feed(d, [0x24] + body).0;
    FeedConcat(d, [0x24] + body, [0x23, h, l]);
    ChecksumFollows(d1, h, l);
    var p := DecodeBuffer(body, h, l);
    forall q
      ensures Verdict(body, h, l, q) <==> p == q
    {
      DecodeVerdict(body, h, l, q);
    }
  }

  lemma {:induction false} ChecksumFollows(d: Decoder, h: Byte, l: Byte)
    requires d.phase == ReceivingBody && IsChecksumByte(h) && IsChecksumByte(l)
    ensures var (after, results) := Feed(d, [0x23, h, l]);
            after.phase == WaitingDollar && after.buffer == [] && results == [DecodeBuffer(d.buffer, h, l)]
  {
    FeedThree(d, 0x23, h, l);
  }

  /** Between packets `$` opens a frame, `+`, `-` and Ctrl-C are delivered as they are, and anything else is
      dropped. Where a checksum is due, an acknowledgement spoils the frame and is delivered as well, and `$`
      spoils it and opens the next. */
  lemma {:induction false} OtherBytes(d: Decoder, c: Byte)
    requires Reachable(d) && d.phase != ReceivingBody
    ensures var (after, results) := Receive1(d, c);
            if c == 0x24 then
              after.phase == ReceivingBody && after.buffer == []
              && results == if d.phase == WaitingDollar then [] else [Err(BadPacket)]
            else if c == 0x2b || c == 0x2d || c == 0x03 then
              after.phase == WaitingDollar && after.buffer == []
              && results == if d.phase == WaitingDollar then [Ok([c])] else [Err(BadPacket), Ok([c])]
            else d.phase == WaitingDollar ==> after == d && results == []
  {
  }

  /** `remove_escape` undoes the escaping that GDB applies before it sends a packet. */
  lemma {:induction false} UnescapeEscape(s: Bytes)
    ensures Unescape(Escape(s)) == Some(s) && NoRaw(Escape(s))
  {
    if s != [] {
      UnescapeEscape(s[1..]);
      UnescapeLead(s[0], Escape(s[1..]));
      assert [s[0]] + s[1..] == s;
    }
  }

  lemma {:induction false} UnescapeLead(c: Byte, rest: Bytes)
    ensures Unescape(Lead(c) + rest) == Prepend([c], Unescape(rest))
    ensures NoRaw(Lead(c))
  {
    if IsEscape(c) {
      UnescapePair(Flip(c), rest);
    } else {
      UnescapePlain(c, rest);
    }
  }

  /** The law the decoder exists for: whatever bytes came before and however the stream is cut, a packet
      sent by GDB is the last result, exactly as it was before escaping, if it fits the buffer; and the decoder
      is idle again. */
  lemma {:induction false} SelfSynchronising(d: Decoder, s: Bytes, chunks: seq<Bytes>)
    requires Reachable(d) && Join(chunks) == Frame(Escape(s))
    ensures var (after, results) := FeedChunks(d, chunks);
            && after.phase == WaitingDollar && after.buffer == []
            && results == Interrupted(d) + if |Escape(s)| <= MAX_BUFFER then [Ok(s)]
                                           else [Err(BufferOverflow)] + AckResults(Escape(s)[MAX_BUFFER + 1..])
  {
    ChunkingIrrelevant(d, chunks);
    UnescapeEscape(s);
    FramedPacketDelivered(d, Escape(s));
  }

  /* ---- The encoder's own packets ---- */

  /** Runs that the encoder writes out and that `remove_escape` reads as written: at most three characters,
      and one only for those that must be escaped. */
  predicate WrittenOut(t: Token) {
    t.n <= (if t.c == BRACE || t.c == DOLLAR || t.c == HASH then 1 else 3)
  }

  predicate AllWrittenOut(ts: seq<Token>) {
    forall i :: 0 <= i < |ts| ==> WrittenOut(ts[i])
  }

  function Braces(b: Bytes): nat {
    if b == [] then 0 else (if b[0] == BRACE then 1 else 0) + Braces(b[1..])
  }

  lemma {:induction false} BracesConcat(a: Bytes, b: Bytes)
    ensures Braces(a + b) == Braces(a) + Braces(b)
  {
    if a == [] {
      assert a + b == b;
    } else {
      assert (a + b)[1..] == a[1..] + b;
      BracesConcat(a[1..], b);
    }
  }

  lemma {:induction false} BracesOfRep(c: Byte, n: nat)
    ensures Braces(Rep(c, n)) == if c == BRACE then n else 0
  {
    if n != 0 {
      assert Rep(c, n)[1..] == Rep(c, n - 1);
      BracesOfRep(c, n - 1);
    }
  }

  /** Whatever is decoded at all is shorter than the body by its number of braces. */
  lemma {:induction false} UnescapedLength(b: Bytes)
    ensures Unescape(b).Some? ==> |Unescape(b).value| + Braces(b) == |b|
  {
    if b != [] {
      if b[0] == BRACE {
        if |b| >= 2 && b[1] != BRACE {
          UnescapedLength(b[2..]);
          assert b[1..][1..] == b[2..];
        }
      } else {
        UnescapedLength(b[1..]);
      }
    }
  }

  /** The characters that `TokenText` can stand for when it is decoded without expansion. */
  lemma {:induction false} TokenYield(t: Token)
    requires 1 <= t.n <= MAX_RUN
    ensures var y := |TokenText(t)| - Braces(TokenText(t));
            y <= t.n && (NoRaw(TokenText(t)) ==> (y == t.n <==> WrittenOut(t)))
  {
    var repeats := RepeatText(t.c, t.n - 1);
    BracesConcat(Lead(t.c), repeats);
    assert IsEscape(t.c) ==> Lead(t.c)[1..] == [Flip(t.c)] && Lead(t.c)[1..][1..] == [];
    assert !IsEscape(t.c) ==> Lead(t.c)[1..] == [];
    assert Braces(Lead(t.c)) == if IsEscape(t.c) then 1 else 0;
    if t.n <= 3 {
      BracesOfRep(t.c, t.n - 1);
      if t.n > 1 {
        assert repeats[0] == t.c && t.c in TokenText(t);
      }
    }
  }

  lemma {:induction false} WrittenOutSplit(ts: seq<Token>)
    requires ts != []
    ensures AllWrittenOut(ts) <==> WrittenOut(ts[0]) && AllWrittenOut(ts[1..])
  {
    hide WrittenOut;
    var rest := ts[1..];
    assert forall i :: 0 <= i < |rest| ==> rest[i] == ts[i + 1];
    if WrittenOut(ts[0]) && AllWrittenOut(rest) {
      forall i | 0 <= i < |ts|
        ensures WrittenOut(ts[i])
      {
        assert i > 0 ==> ts[i] == rest[i - 1];
      }
    }
  }

  lemma {:induction false} NothingToWrite()
    ensures AllWrittenOut([])
  {
  }

  lemma {:induction false} TextYield(ts: seq<Token>)
    requires ValidTokens(ts)
    ensures var y := |Text(ts)| - Braces(Text(ts));
            y <= |Chars(ts)| && (NoRaw(Text(ts)) ==> (y == |Chars(ts)| <==> AllWrittenOut(ts)))
  {
    hide WrittenOut, AllWrittenOut, TokenText;
    if ts == [] {
      assert Text(ts) == [];
      assert AllWrittenOut(ts) by {
        NothingToWrite();
      }
    } else {
      var t, rest := ts[0], ts[1..];
      TailValid(ts);
      TextYield(rest);
      TokenYield(t);
      BracesConcat(TokenText(t), Text(rest));
      WrittenOutSplit(ts);
    }
  }

  lemma {:induction false} UnescapeWrittenOut(ts: seq<Token>)
    requires ValidTokens(ts) && AllWrittenOut(ts)
    ensures Unescape(Text(ts)) == Some(Chars(ts))
  {
    if ts != [] {
      var t, rest := ts[0], ts[1..];
      TailValid(ts);
      WrittenOutSplit(ts);
      UnescapeWrittenOut(rest);
      UnescapeToken(t, Text(rest));
    }
  }

  lemma {:induction false} UnescapeToken(t: Token, rest: Bytes)
    requires 1 <= t.n && WrittenOut(t)
    ensures Unescape(TokenText(t) + rest) == Prepend(Rep(t.c, t.n), Unescape(rest))
  {
    assert TokenText(t) + rest == Lead(t.c) + (Rep(t.c, t.n - 1) + rest);
    UnescapeLead(t.c, Rep(t.c, t.n - 1) + rest);
    if t.c != BRACE {
      UnescapeRep(t.c, t.n - 1, rest);
    } else {
      assert Rep(t.c, 0) + rest == rest;
      PrependNothing(Rep(t.c, 0), Unescape(rest));
    }
    PrependTwice([t.c], Rep(t.c, t.n - 1), Unescape(rest));
    assert [t.c] + Rep(t.c, t.n - 1) == Rep(t.c, t.n);
  }

  /* A raw delimiter in the body spoils the packet. */

  lemma {:induction false} DollarsConcat(a: Bytes, b: Bytes)
    ensures Dollars(a + b) == Dollars(a) + Dollars(b)
  {
    if b == [] {
      assert a + b == a;
    } else {
      assert (a + b)[..|a + b| - 1] == a + b[..|b| - 1];
      DollarsConcat(a, b[..|b| - 1]);
    }
  }

  lemma {:induction false} DollarsIn(b: Bytes, i: nat)
    requires i < |b| && b[i] == DOLLAR
    ensures Dollars(b) > 0
  {
    if i < |b| - 1 {
      DollarsIn(b[..|b| - 1], i);
    }
  }

  /** A raw `$` starts another frame, so the decoder queues one result too many or is left waiting. */
  lemma {:induction false} RawDollar(d: Decoder, body: Bytes)
    requires DOLLAR in body
    ensures var (after, results) := Feed(d, Frame(body));
            after.phase == WaitingDollar ==> |results| > Open(d) + 1
  {
    var i :| 0 <= i < |body| && body[i] == DOLLAR;
    DollarsIn(body, i);
    DollarsIn([DOLLAR], 0);
    var tail := [HASH, HexDigit(Checksum(body) / 16), HexDigit(Checksum(body) % 16)];
    DollarsConcat([DOLLAR], body);
    DollarsConcat([DOLLAR] + body, tail);
    FrameConservation(d, Frame(body));
  }

  /** A `#` ends the frame: the next result is what stands before it, or an error. */
  lemma {:induction false} HashEndsFrame(d: Decoder, x: Byte, y: Byte)
    requires d.phase == ReceivingBody
    ensures var results := Feed(d, [HASH, x, y]).1;
            |results| > 0 && (results[0].Ok? ==> Unescape(d.buffer) == Some(results[0].value))
  {
    FeedThree(d, HASH, x, y);
  }

  lemma {:induction false} FeedOpening(d: Decoder, before: Bytes)
    requires Reachable(d) && NoRaw(before) && |before| <= MAX_BUFFER
    ensures var (d1, results) := Feed(d, [DOLLAR] + before);
            d1.phase == ReceivingBody && d1.buffer == before && results == Interrupted(d)
  {
    FeedThree(d, DOLLAR, DOLLAR, DOLLAR);
    var d1 := Feed(d, [DOLLAR]).0;
    FeedBody(d1, before);
    assert d1.buffer + before == before;
    FeedConcat(d, [DOLLAR], before);
    assert Interrupted(d) + [] == Interrupted(d);
  }

  /** A raw `#` ends the frame early: the first result is what stands before it, or an error. */
  lemma {:induction false} RawHash(d: Decoder, before: Bytes, x: Byte, y: Byte, rest: Bytes)
    requires Reachable(d) && NoRaw(before) && |before| <= MAX_BUFFER
    ensures var results := Feed(d, [DOLLAR] + before + [HASH, x, y] + rest).1;
            && |results| > Open(d)
            && (results[Open(d)].Ok? ==> Unescape(before) == Some(results[Open(d)].value))
  {
    hide Feed, Unescape, Reachable, NoRaw;
    FeedOpening(d, before);
    var d1 := Feed(d, [DOLLAR] + before).0;
    HashEndsFrame(d1, x, y);
    var early := Feed(d1, [HASH, x, y]).1;
    FeedConcat(d, [DOLLAR] + before, [HASH, x, y]);
    FeedConcat(d, [DOLLAR] + before + [HASH, x, y], rest);
    var results := Feed(d, [DOLLAR] + before + [HASH, x, y] + rest).1;
    assert results == (Interrupted(d) + early) + Feed(Feed(d1, [HASH, x, y]).0, rest).1;
    assert results[Open(d)] == early[0];
  }

  /** The part of a body before a raw `#` decodes to fewer characters than the body stands for. */
  lemma {:induction false} BeforeHashIsShort(ts: seq<Token>, before: Bytes, after: Bytes)
    requires ValidTokens(ts) && Text(ts) == before + ([HASH] + after)
    ensures Unescape(before) != Some(Chars(ts))
  {
    TextYield(ts);
    BracesConcat(before, [HASH] + after);
    BracesConcat([HASH], after);
    assert [HASH][1..] == [];
    BracesAtMost(after);
    UnescapedLength(before);
  }

  lemma {:induction false} BracesAtMost(b: Bytes)
    ensures Braces(b) <= |b|
  {
    if b != [] {
      BracesAtMost(b[1..]);
    }
  }

  function FirstHash(b: Bytes): (i: nat)
    requires HASH in b
    ensures i < |b| && b[i] == HASH && HASH !in b[..i]
  {
    if b[0] == HASH then 0
    else
      var i := FirstHash(b[1..]);
      assert b[..i + 1] == [b[0]] + b[1..][..i];
      i + 1
  }

  predicate DeliveredAs(d: Decoder, fed: (Decoder, seq<Packet>), s: Bytes) {
    fed.0.phase == WaitingDollar && fed.1 == Interrupted(d) + [Ok(s)]
  }

  lemma {:induction false} SpoiledByHash(d: Decoder, ts: seq<Token>, tail: Bytes, before: Bytes, after: Bytes)
    requires Reachable(d) && ValidTokens(ts) && |tail| >= 2
    requires Text(ts) == before + ([HASH] + after) && NoRaw(before) && |before| <= MAX_BUFFER
    ensures !DeliveredAs(d, Feed(d, [DOLLAR] + Text(ts) + [HASH] + tail), Chars(ts))
  {
    hide Feed, Unescape, Reachable, NoRaw, Text, Chars;
    BeforeHashIsShort(ts, before, after);
    var rest := after + [HASH] + tail;
    assert [DOLLAR] + Text(ts) + [HASH] + tail == [DOLLAR] + before + [HASH, rest[0], rest[1]] + rest[2..];
    RawHash(d, before, rest[0], rest[1], rest[2..]);
    assert (Interrupted(d) + [Ok(Chars(ts))])[Open(d)] == Ok(Chars(ts));
  }

  lemma {:induction false} SpoiledByDollar(d: Decoder, body: Bytes, s: Bytes)
    requires DOLLAR in body
    ensures !DeliveredAs(d, Feed(d, Frame(body)), s)
  {
    hide Feed, Frame;
    RawDollar(d, body);
    assert |Interrupted(d) + [Ok(s)]| == Open(d) + 1;
  }

  lemma {:induction false} CutAtHash(body: Bytes, i: nat)
    requires i < |body| && body[i] == HASH && DOLLAR !in body && HASH !in body[..i]
    ensures body == body[..i] + ([HASH] + body[i + 1..]) && NoRaw(body[..i])
  {
  }

  lemma {:induction false} SpoiledPacket(d: Decoder, ts: seq<Token>)
    requires Reachable(d) && ValidTokens(ts) && !NoRaw(Text(ts))
    ensures !DeliveredAs(d, Feed(d, Frame(Text(ts))), Chars(ts))
  {
    hide Feed, Reachable, Text, Chars, DeliveredAs, Frame;
    var body := Text(ts);
    if DOLLAR in body {
      SpoiledByDollar(d, body, Chars(ts));
    } else {
      var i := FirstHash(body);
      CutAtHash(body, i);
      FrameParts(body);
      if i <= MAX_BUFFER {
        SpoiledByHash(d, ts, ChecksumText(body), body[..i], body[i + 1..]);
      } else {
        PrefixNoRaw(body[..i], MAX_BUFFER + 1);
        assert body[..i][..MAX_BUFFER + 1] == body[..MAX_BUFFER + 1];
        SpoiledByLength(d, body, Chars(ts));
      }
    }
  }

  /** A body that fills the buffer before its first delimiter overflows, whatever comes then. */
  lemma {:induction false} SpoiledByLength(d: Decoder, body: Bytes, s: Bytes)
    requires Reachable(d) && |body| > MAX_BUFFER && NoRaw(body[..MAX_BUFFER + 1])
    ensures !DeliveredAs(d, Feed(d, Frame(body)), s)
  {
    hide Feed, NoRaw;
    var front, rest := body[..MAX_BUFFER + 1], body[MAX_BUFFER + 1..] + FrameEnd(body);
    assert Frame(body) == [DOLLAR] + front + rest;
    Opened(d);
    var d1 := Feed(d, [DOLLAR]).0;
    FeedTooLong(d1, front);
    FeedConcat(d, [DOLLAR], front);
    FeedConcat(d, [DOLLAR] + front, rest);
    var results := Feed(d, Frame(body)).1;
    assert results == (Interrupted(d) + [Err(BufferOverflow)]) + Feed(d1.(phase := WaitingDollar), rest).1;
    assert results[Open(d)] == Err(BufferOverflow);
    assert (Interrupted(d) + [Ok(s)])[Open(d)] == Ok(s);
  }

  function ChecksumText(body: Bytes): (text: Bytes)
    ensures |text| == 2
  {
    [HexDigit(Checksum(body) / 16), HexDigit(Checksum(body) % 16)]
  }

  lemma {:induction false} FrameParts(body: Bytes)
    ensures Frame(body) == [DOLLAR] + body + [HASH] + ChecksumText(body)
  {
  }

  lemma {:induction false} WrittenOutNoRaw(ts: seq<Token>)
    requires ValidTokens(ts) && AllWrittenOut(ts)
    ensures NoRaw(Text(ts))
  {
    if ts != [] {
      TailValid(ts);
      WrittenOutSplit(ts);
      WrittenOutNoRaw(ts[1..]);
    }
  }

  /** The decoder does not expand run lengths. From every reachable state and for every chunking, it
      delivers the encoder's packet as the string that was encoded, and is idle again, exactly when the
      encoder has written every run out and the body fits the buffer. */
  lemma {:induction false} DecodesOwnEncoderIff(d: Decoder, s: Bytes, chunks: seq<Bytes>)
    requires Reachable(d) && Join(chunks) == Encoded(s)
    ensures DeliveredAs(d, FeedChunks(d, chunks), StripNul(s))
       <==> AllWrittenOut(Tokens(s)) && |Body(s)| <= MAX_BUFFER
  {
    hide Feed, AllWrittenOut, Tokens, NoRaw, StripNul, DeliveredAs;
    TokensOfString(s);
    var ts := Tokens(s);
    ChunkingIrrelevant(d, chunks);
    if !NoRaw(Text(ts)) {
      SpoiledPacket(d, ts);
      if AllWrittenOut(ts) {
        WrittenOutNoRaw(ts);
      }
    } else if |Body(s)| > MAX_BUFFER {
      PrefixNoRaw(Text(ts), MAX_BUFFER + 1);
      SpoiledByLength(d, Text(ts), StripNul(s));
    } else {
      CleanPacketIff(d, ts);
    }
  }

  lemma {:induction false} CleanPacketIff(d: Decoder, ts: seq<Token>)
    requires Reachable(d) && ValidTokens(ts) && NoRaw(Text(ts)) && |Text(ts)| <= MAX_BUFFER
    ensures DeliveredAs(d, Feed(d, Frame(Text(ts))), Chars(ts)) <==> AllWrittenOut(ts)
  {
    hide Feed, AllWrittenOut, NoRaw, Text, Chars, Unescape, Frame;
    FramedPacketDelivered(d, Text(ts));
    TextYield(ts);
    UnescapedLength(Text(ts));
    if AllWrittenOut(ts) {
      UnescapeWrittenOut(ts);
    }
    var results := Feed(d, Frame(Text(ts))).1;
    assert results[Open(d)] == match Unescape(Text(ts)) { case None => Err(BadPacket) case Some(b) => Ok(b) };
    assert (Interrupted(d) + [Ok(Chars(ts))])[Open(d)] == Ok(Chars(ts));
  }
}
