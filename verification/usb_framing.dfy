/** The two framers of the tactile sensor's USB packets, the C++ one fed byte by byte and the Python
    one fed chunk by chunk, and the encoder. A packet is a start byte, a placeholder CRC, a command,
    a length and that many bytes of data. */
module UsbFraming {

  import opened Bytes

  const START: Byte := 0x9A
  const HEADER_SIZE := 4
  const MAX_DATA_SIZE := 256
  const MAX_SIZE := HEADER_SIZE + MAX_DATA_SIZE

  /** A buffer without its leading non-start bytes. */
  function Strip(b: seq<Byte>): (s: seq<Byte>)
    ensures |s| <= |b| && (s != [] ==> s[0] == START)
  {
    if b == [] || b[0] == START then b else Strip(b[1..])
  }

  /** A stripped buffer begins with a complete packet. */
  predicate Complete(b: seq<Byte>) {
    |b| >= HEADER_SIZE && |b| >= HEADER_SIZE + b[3]
  }

  function Size(b: seq<Byte>): nat
    requires |b| >= HEADER_SIZE
  {
    HEADER_SIZE + b[3]
  }

  datatype Parsed = Parsed(packets: seq<seq<Byte>>, rest: seq<Byte>)

  /** What a stream of bytes means: skip to a start byte, take a packet, and so on. */
  function Split(b: seq<Byte>): (p: Parsed)
    decreases |b|
  {
    var s := Strip(b);
    if !Complete(s) then Parsed([], s)
    else
      var p := Split(s[Size(s)..]);
      Parsed([s[..Size(s)]] + p.packets, p.rest)
  }

  // ------------------------------------------------------------- C++

  /** One byte more behind an incomplete packet, or behind nothing. */
  function Push(partial: seq<Byte>, d: Byte): Parsed {
    if partial == [] && d != START then Parsed([], [])
    else if Complete(partial + [d]) then Parsed([partial + [d]], [])
    else Parsed([], partial + [d])
  }

  predicate Partial(b: seq<Byte>) {
    b == [] || (b[0] == START && !Complete(b))
  }

  class ByteReader {
    const p: array<Byte>
    var readSoFar: nat

    /** The bytes of the packet being received fit the buffer with room to spare. */
    ghost predicate Valid()
      reads this, p
    {
      p.Length == MAX_SIZE && readSoFar < MAX_SIZE - 1 && Partial(p[..readSoFar])
    }

    constructor ()
      ensures Valid() && readSoFar == 0 && fresh(p)
    {
      p := new Byte[MAX_SIZE](_ => 0);
      readSoFar := 0;
    }

    /** The placeholder: the byte before the data it is given. */
    method CalcCrc8(data: nat) returns (crc: Byte)
      requires 0 < data <= p.Length
      ensures crc == p[data - 1]
    {
      crc := p[data - 1];
    }

    /** True when d completes a packet, which then stands at the start of p. The placeholder CRC never
        mismatches, so the resynchronisation behind it is unreachable. */
    method ReadByte(d: Byte) returns (done: bool)
      requires Valid()
      modifies this, p
      ensures Valid()
      ensures var r := Push(old(p[..readSoFar]), d);
        && done == (r.packets != [])
        && p[..readSoFar] == r.rest
        && (done ==> Complete(p[..]) && r.packets == [p[..Size(p[..])]])
    {
      ghost var before := p[..readSoFar];
      if readSoFar == 0 && d != START {
        return false;
      }
      if readSoFar < MAX_SIZE {
        p[readSoFar] := d;
      }
      readSoFar := readSoFar + 1;
      assert p[..readSoFar] == before + [d];
      done := false;
      if readSoFar > 3 && readSoFar >= p[3] + HEADER_SIZE {
        ghost var size := readSoFar;
        readSoFar := 0;
        var crc := CalcCrc8(2);
        done := p[1] == crc;
      }
    }
  }

  /** Every byte of a stream in turn. */
  function PushAll(partial: seq<Byte>, stream: seq<Byte>): Parsed
    decreases |stream|
  {
    if stream == [] then Parsed([], partial)
    else
      var r := Push(partial, stream[0]);
      var p := PushAll(r.rest, stream[1..]);
      Parsed(r.packets + p.packets, p.rest)
  }

  // ------------------------------------------------------------- Python

  /** What feed_bytes makes of its buffer. */
  function Parse(b: seq<Byte>): (p: Parsed)
    decreases |b|
  {
    if |b| < HEADER_SIZE then Parsed([], b)
    else
      var s := Strip(b);
      if !Complete(s) then Parsed([], s)
      else
        var p := Parse(s[Size(s)..]);
        Parsed([s[..Size(s)]] + p.packets, p.rest)
  }

  /** bytearray.find: the first start byte, or -1. */
  function Find(b: seq<Byte>): (i: int)
    ensures -1 <= i < |b|
    ensures i == -1 ==> Strip(b) == []
    ensures i >= 0 ==> b[i] == START && Strip(b) == b[i..]
  {
    if b == [] then -1
    else if b[0] == START then 0
    else
      var i := Find(b[1..]);
      if i == -1 then -1 else i + 1
  }

  class PacketParser {
    var buffer: seq<Byte>
    var packetCount: nat

    constructor ()
      ensures buffer == [] && packetCount == 0
    {
      buffer, packetCount := [], 0;
    }

    method FeedBytes(data: seq<Byte>) returns (packets: seq<seq<Byte>>)
      modifies this
      ensures Parsed(packets, buffer) == Parse(old(buffer) + data)
      ensures packetCount == old(packetCount) + |packets|
      ensures |buffer| >= 4 ==> buffer[0] == 0x9A && |buffer| - 4 < buffer[3]
    {
      RestIsIncomplete(buffer + data);
      hide Parse, Strip, Find;
      buffer := buffer + data;
      ghost var all := buffer;
      packets := [];
      while |buffer| >= HEADER_SIZE
        invariant Parse(all) == Parsed(packets + Parse(buffer).packets, Parse(buffer).rest)
        invariant packetCount == old(packetCount) + |packets|
        decreases |buffer|
      {
        ParseStep(buffer);
        ghost var whole := buffer;
        var startIdx := Find(buffer);
        if startIdx == -1 {
          buffer := [];
          assert Parse(all) == Parsed(packets, buffer);
          return;
        }
        if startIdx > 0 {
          buffer := buffer[startIdx..];
        }
        assert buffer == Strip(whole);
        if |buffer| < HEADER_SIZE {
          assert Parse(all) == Parsed(packets, buffer);
          return;
        }
        var packetSize := HEADER_SIZE + buffer[3];
        if |buffer| < packetSize {
          assert Parse(all) == Parsed(packets, buffer);
          return;
        }
        packets := packets + [buffer[..packetSize]];
        buffer := buffer[packetSize..];
        packetCount := packetCount + 1;
      }
      ParseStep(buffer);
    }

    /** Encodes a command; 256 bytes pass the size check but their count does not fit its byte. */
    method CreateCommandPacket(command: Byte, data: seq<Byte>) returns (r: Encoded)
      ensures r == Encode(command, data)
      ensures (r.DataTooLarge? <==> |data| > 256) && (r.ByteOutOfRange? <==> |data| == 256)
      ensures r.Packet? ==> Carries(r.bytes, Message(command, data))
    {
      if |data| > MAX_DATA_SIZE {
        return DataTooLarge;
      }
      var packet := [START];
      packet := packet + [0x00];
      packet := packet + [command];
      if |data| >= 256 {
        return ByteOutOfRange;
      }
      packet := packet + [|data|];
      packet := packet + data;
      r := Packet(packet);
    }
  }

  /** What is left is too short for a header, or begins a packet that is not complete. */
  lemma {:induction false} RestIsIncomplete(b: seq<Byte>)
    ensures var rest := Parse(b).rest;
      |rest| >= HEADER_SIZE ==> rest[0] == START && !Complete(rest)
    decreases |b|
  {
    var s := Strip(b);
    if |b| >= HEADER_SIZE && Complete(s) {
      RestIsIncomplete(s[Size(s)..]);
    }
  }

  /** One pass of the loop. */
  lemma ParseStep(b: seq<Byte>)
    ensures |b| < HEADER_SIZE ==> Parse(b) == Parsed([], b)
    ensures |b| >= HEADER_SIZE ==>
      var s := Strip(b);
      if |s| >= HEADER_SIZE && |s| >= HEADER_SIZE + s[3] then
        var p := Parse(s[HEADER_SIZE + s[3]..]);
        Parse(b) == Parsed([s[..HEADER_SIZE + s[3]]] + p.packets, p.rest)
      else Parse(b) == Parsed([], s)
  {
  }

  // ------------------------------------------------------------- the framers agree

  lemma {:induction false} StripTwice(b: seq<Byte>, more: seq<Byte>)
    ensures Strip(Strip(b) + more) == Strip(b + more)
  {
    if b == [] {
      assert [] + more == more;
      StripStripped(more);
    } else if b[0] == START {
    } else {
      StripTwice(b[1..], more);
      assert (b + more)[1..] == b[1..] + more;
    }
  }

  lemma {:induction false} StripStripped(b: seq<Byte>)
    ensures Strip(Strip(b)) == Strip(b)
  {
  }

  /** The Python buffer equals the meaning of its bytes up to leading non-start bytes. */
  lemma {:induction false} ParseSplits(b: seq<Byte>)
    ensures Parse(b).packets == Split(b).packets && Strip(Parse(b).rest) == Split(b).rest
    decreases |b|
  {
    StripStripped(b);
    var s := Strip(b);
    if |b| >= HEADER_SIZE && Complete(s) {
      ParseSplits(s[Size(s)..]);
    }
  }

  lemma StartsStripped(b: seq<Byte>)
    requires b != [] && b[0] == START
    ensures Strip(b) == b
  {
  }

  /** A stream can be cut anywhere: the second part goes behind what the first one left. */
  lemma {:induction false} SplitInParts(a: seq<Byte>, b: seq<Byte>)
    ensures var first := Split(a);
      var second := Split(first.rest + b);
      Split(a + b) == Parsed(first.packets + second.packets, second.rest)
    decreases |a|
  {
    hide Strip;
    var s := Strip(a);
    StripTwice(a, b);
    SplitStripped(s + b, a + b);
    if Complete(s) {
      StartsStripped(s + b);
      FrontStays(s, b);
      hide Complete, Size;
      SplitInParts(s[Size(s)..], b);
    }
  }

  lemma FrontStays(s: seq<Byte>, b: seq<Byte>)
    requires Complete(s)
    ensures Complete(s + b) && Size(s + b) == Size(s) <= |s|
    ensures (s + b)[Size(s)..] == s[Size(s)..] + b && (s + b)[..Size(s)] == s[..Size(s)]
  {
  }

  lemma SplitStripped(a: seq<Byte>, b: seq<Byte>)
    requires Strip(a) == Strip(b)
    ensures Split(a) == Split(b)
  {
  }

  lemma PushIsSplit(partial: seq<Byte>, d: Byte)
    requires Partial(partial)
    ensures Push(partial, d) == Split(partial + [d]) && Partial(Push(partial, d).rest)
  {
    var b := partial + [d];
    if partial == [] && d != START {
      assert b[1..] == [] && Strip(b) == [];
    } else {
      assert Strip(b) == b;
      if Complete(b) {
        assert |b| == Size(b) && b[..Size(b)] == b && b[Size(b)..] == [];
        assert Split([]) == Parsed([], []);
      }
    }
  }

  lemma PartialIsRest(partial: seq<Byte>)
    requires Partial(partial)
    ensures Split(partial) == Parsed([], partial)
  {
    assert Strip(partial) == partial;
  }

  /** The C++ framer, byte by byte, computes the meaning of the stream. */
  lemma {:induction false} PushAllIsSplit(partial: seq<Byte>, stream: seq<Byte>)
    requires Partial(partial)
    ensures PushAll(partial, stream) == Split(partial + stream)
    decreases |stream|
  {
    hide Push, Split, Partial;
    if stream == [] {
      assert partial + [] == partial;
      PartialIsRest(partial);
    } else {
      var d := stream[0];
      PushIsSplit(partial, d);
      PushAllIsSplit(Push(partial, d).rest, stream[1..]);
      SplitInParts(partial + [d], stream[1..]);
      assert partial + stream == (partial + [d]) + stream[1..];
    }
  }

  /** The Python framer over a whole run of reads. */
  function FeedAll(buffer: seq<Byte>, chunks: seq<seq<Byte>>): Parsed
    decreases |chunks|
  {
    if chunks == [] then Parsed([], buffer)
    else
      var first := Parse(buffer + chunks[0]);
      var p := FeedAll(first.rest, chunks[1..]);
      Parsed(first.packets + p.packets, p.rest)
  }

  /** Nothing more can be taken from what a split left. */
  lemma {:induction false} RestIsSettled(b: seq<Byte>)
    ensures Split(Split(b).rest) == Parsed([], Split(b).rest)
    ensures Strip(Split(b).rest) == Split(b).rest
    decreases |b|
  {
    var s := Strip(b);
    if Complete(s) {
      RestIsSettled(s[Size(s)..]);
    } else {
      StripStripped(b);
    }
  }

  /** No packet is left in the buffer. */
  predicate Settled(buffer: seq<Byte>) {
    Split(Strip(buffer)) == Parsed([], Strip(buffer))
  }

  lemma {:induction false} FeedAllIsSplit(buffer: seq<Byte>, chunks: seq<seq<Byte>>)
    requires Settled(buffer)
    ensures var f, s := FeedAll(buffer, chunks), Split(Strip(buffer) + Concat(chunks));
      f.packets == s.packets && Strip(f.rest) == s.rest
    decreases |chunks|
  {
    if chunks == [] {
      assert Strip(buffer) + [] == Strip(buffer);
    } else {
      hide Parse, Split, Strip, Settled;
      var first := Parse(buffer + chunks[0]);
      var more := Concat(chunks[1..]);
      FeedOnce(buffer, chunks[0], more);
      FeedAllIsSplit(first.rest, chunks[1..]);
    }
  }

  /** One call of the Python framer, against the stream it has seen and the one to come. */
  lemma FeedOnce(buffer: seq<Byte>, chunk: seq<Byte>, more: seq<Byte>)
    ensures var first := Parse(buffer + chunk);
      var later := Split(Strip(first.rest) + more);
      && Settled(first.rest)
      && Split(Strip(buffer) + (chunk + more)) == Parsed(first.packets + later.packets, later.rest)
  {
    var all := buffer + chunk;
    ParseSplits(all);
    RestIsSettled(all);
    hide Parse, Split, Strip;
    SplitInParts(all, more);
    assert all + more == buffer + (chunk + more);
    StripTwice(buffer, chunk + more);
    SplitStripped(Strip(buffer) + (chunk + more), buffer + (chunk + more));
  }

  /** On every byte stream and every cut of it into chunks, both framers emit the same packets and
      hold the same bytes, up to leading bytes that start no packet. */
  lemma FramersAgree(chunks: seq<seq<Byte>>)
    ensures var python, cpp := FeedAll([], chunks), PushAll([], Concat(chunks));
      python.packets == cpp.packets && Strip(python.rest) == cpp.rest
  {
    assert Settled([]);
    assert Strip([]) + Concat(chunks) == Concat(chunks) == [] + Concat(chunks);
    FeedAllIsSplit([], chunks);
    PushAllIsSplit([], Concat(chunks));
  }

  // ------------------------------------------------------------- encoding

  datatype Encoded = Packet(bytes: seq<Byte>) | DataTooLarge | ByteOutOfRange

  function Encode(command: Byte, data: seq<Byte>): Encoded {
    if |data| > MAX_DATA_SIZE then DataTooLarge
    else if |data| > 255 then ByteOutOfRange
    else Packet([START, 0, command, |data|] + data)
  }

  datatype Message = Message(command: Byte, data: seq<Byte>)

  /** A packet as its readers take it apart: the command behind the placeholder, the data behind its length. */
  predicate Carries(packet: seq<Byte>, m: Message) {
    && |packet| == 4 + |m.data|
    && packet[0] == 0x9A && packet[1] == 0x00 && packet[2] == m.command && packet[3] == |m.data|
    && packet[4..] == m.data
  }

  ghost predicate IsEncoding(packet: seq<Byte>) {
    exists command, data :: Encode(command, data) == Packet(packet)
  }

  lemma FirstPacket(command: Byte, data: seq<Byte>, packet: seq<Byte>, rest: seq<Byte>)
    requires Encode(command, data) == Packet(packet)
    ensures Split(packet + rest) == Parsed([packet] + Split(rest).packets, Split(rest).rest)
  {
    var all := packet + rest;
    StartsStripped(all);
    assert all[3] == packet[3] && all[..|packet|] == packet && all[|packet|..] == rest;
  }

  /** Concatenated encodings decode to exactly themselves. */
  lemma {:induction false} EncodingsDecode(packets: seq<seq<Byte>>)
    requires forall p | p in packets :: IsEncoding(p)
    ensures Split(Concat(packets)) == Parsed(packets, [])
    decreases |packets|
  {
    if packets == [] {
      assert Split([]) == Parsed([], []);
    } else {
      var p, rest := packets[0], Concat(packets[1..]);
      assert IsEncoding(p);
      var command, data :| Encode(command, data) == Packet(p);
      EncodingsDecode(packets[1..]);
      var all := Concat(packets);
      assert all == p + rest;
      FirstPacket(command, data, p, rest);
      hide Split, Concat;
      assert [packets[0]] + packets[1..] == packets;
    }
  }

  /** So either framer returns the packets sent, however the bytes arrive. */
  lemma SentPacketsArrive(packets: seq<seq<Byte>>, chunks: seq<seq<Byte>>)
    requires forall p | p in packets :: IsEncoding(p)
    requires Concat(chunks) == Concat(packets)
    ensures FeedAll([], chunks).packets == PushAll([], Concat(chunks)).packets == packets
    ensures PushAll([], Concat(chunks)).rest == []
  {
    EncodingsDecode(packets);
    FramersAgree(chunks);
    PushAllIsSplit([], Concat(chunks));
    assert [] + Concat(chunks) == Concat(chunks);
  }

  /** And with them the commands and the data that were sent. */
  lemma MessagesArrive(messages: seq<Message>, packets: seq<seq<Byte>>, chunks: seq<seq<Byte>>)
    requires |packets| == |messages|
    requires forall i | 0 <= i < |messages| :: Encode(messages[i].command, messages[i].data) == Packet(packets[i])
    requires Concat(chunks) == Concat(packets)
    ensures var got := FeedAll([], chunks).packets;
      && got == PushAll([], Concat(chunks)).packets && |got| == |messages|
      && forall i | 0 <= i < |messages| :: Carries(got[i], messages[i])
  {
    forall p | p in packets ensures IsEncoding(p) {
      var i :| 0 <= i < |packets| && packets[i] == p;
      assert Encode(messages[i].command, messages[i].data) == Packet(p);
    }
    SentPacketsArrive(packets, chunks);
    hide FeedAll, PushAll, Concat;
    forall i | 0 <= i < |messages| ensures Carries(packets[i], messages[i]) {
      EncodingCarries(messages[i], packets[i]);
    }
  }

  lemma EncodingCarries(m: Message, packet: seq<Byte>)
    requires Encode(m.command, m.data) == Packet(packet)
    ensures Carries(packet, m)
  {
  }
}
