/** The bootloader host: packets with a two's complement checksum, and firmware rows cut into packets.
    The device is modelled as the protocol describes it: data is appended to a staging buffer, and
    programming a row commits the buffer with the row's last bytes and clears it. */
module Bootloader {

  import opened Bytes
  import opened Wrappers

  const MAX_DATA_LENGTH := 48
  const MAX_PAYLOAD := 57
  const SOP: Byte := 0x01
  const EOP: Byte := 0x17
  const SUCCESS: Byte := 0x00
  const ERR_CHECKSUM: Byte := 0x08
  const SEND_DATA: Byte := 0x37
  const PROGRAM_ROW: Byte := 0x39

  /** The codes that have a name. */
  predicate IsStatus(code: Byte) {
    code == 0x00 || 0x03 <= code <= 0x05 || 0x08 <= code <= 0x0a || 0x0c <= code <= 0x0f
  }

  function Sum(data: seq<Byte>): nat {
    if data == [] then 0 else Sum(data[..|data| - 1]) + data[|data| - 1]
  }

  /** A frame: what a packet is without its report byte. */
  function Body(command: Byte, data: seq<Byte>): seq<Byte>
    requires |data| < 0x1_0000
  {
    [SOP, command, |data| % 256, |data| / 256] + data
  }

  function Complement(sum: nat): (c: Word)
    ensures (sum + c) % 0x1_0000 == 0
  {
    if sum % 0x1_0000 == 0 then 0 else 0x1_0000 - sum % 0x1_0000
  }

  function Frame(command: Byte, data: seq<Byte>): seq<Byte>
    requires |data| < 0x1_0000
  {
    var body := Body(command, data);
    var checksum: int := Complement(Sum(body));
    body + [checksum % 256, checksum / 256, EOP]
  }

  /** Python's ~ on an unbounded integer. */
  function Not(n: int): int {
    -n - 1
  }

  /** The bytes summed to a multiple of 2^16 with the checksum. */
  method Checksum(data: seq<Byte>) returns (checksum: Word)
    ensures checksum == Complement(Sum(data))
  {
    var sum: int := 0;
    for i := 0 to |data|
      invariant sum == Sum(data[..i])
    {
      assert data[..i + 1][..i] == data[..i];
      sum := sum + data[i];
    }
    assert data[..|data|] == data;
    checksum := (Not(sum) + 1) % 0x1_0000;
  }

  datatype Error = LengthAssertion | IndexError | SopAssertion | KeyError | EopAssertion
  datatype Result<T> = Ok(value: T) | Raised(error: Error)

  function Low(data: seq<int>): (bytes: seq<Byte>)
    ensures |bytes| == |data|
  {
    seq(|data|, i requires 0 <= i < |data| => data[i] % 256)
  }

  /** A report byte, then the frame of the low byte of every datum. */
  method MakePacket(command: Byte, data: seq<int>) returns (r: Result<seq<Byte>>)
    ensures r == if |data| <= MAX_PAYLOAD then Ok([0x00] + Frame(command, Low(data)))
                 else Raised(LengthAssertion)
    ensures |data| <= 57 ==> r.Ok? && IsPacket(r.value, command, data)
  {
    hide Sum, Complement;
    var packet: seq<Byte> := [];
    packet := packet + [0x00];
    packet := packet + [SOP];
    packet := packet + [command];
    var dataLength := |data|;
    if dataLength > MAX_PAYLOAD {
      return Raised(LengthAssertion);
    }
    packet := packet + [dataLength % 256];
    packet := packet + [dataLength / 256 % 256];
    ghost var header := packet;
    for i := 0 to |data|
      invariant packet == header + Low(data)[..i]
    {
      packet := packet + [data[i] % 256];
    }
    ghost var body := Body(command, Low(data));
    assert packet == [0x00] + body;
    ReportByteIsFree(body);
    var checksum := Checksum(packet);
    var low, high := checksum % 256, checksum / 256 % 256;
    packet := packet + [low];
    packet := packet + [high];
    packet := packet + [EOP];
    assert packet == [0x00] + Frame(command, Low(data));
    FrameIsPacket(command, data);
    r := Ok(packet);
  }

  /** A packet, byte by byte: the report byte, the start, the command, the length low byte first, the data's
      low bytes, then what brings their sum to a multiple of 2^16, low byte first, and the end. */
  ghost predicate IsPacket(p: seq<Byte>, command: Byte, data: seq<int>) {
    var n := |data|;
    && |p| == n + 8
    && p[0] == 0x00 && p[1] == 0x01 && p[2] == command && p[3] == n % 256 && p[4] == n / 256
    && (forall i :: 0 <= i < n ==> p[5 + i] == data[i] % 256)
    && (var low: int, high: int := p[n + 5], p[n + 6]; (Sum(p[..n + 5]) + low + 256 * high) % 0x1_0000 == 0)
    && p[n + 7] == 0x17
  }

  lemma FrameIsPacket(command: Byte, data: seq<int>)
    requires |data| <= MAX_PAYLOAD
    ensures IsPacket([0x00] + Frame(command, Low(data)), command, data)
  {
    hide Sum, Complement;
    var body := Body(command, Low(data));
    var p := [0x00] + Frame(command, Low(data));
    assert p[..|data| + 5] == [0x00] + body;
    ReportByteIsFree(body);
  }

  lemma {:induction false} ReportByteIsFree(body: seq<Byte>)
    ensures Sum([0x00] + body) == Sum(body)
    decreases |body|
  {
    var all := [0x00] + body;
    if body == [] {
      assert all[..0] == [];
    } else {
      assert all[..|all| - 1] == [0x00] + body[..|body| - 1];
      ReportByteIsFree(body[..|body| - 1]);
    }
  }

  datatype Response = Response(status: Byte, data: seq<Byte>, checksumOk: bool)

  predicate Success(r: Result<Response>) {
    r.Ok? && r.value.checksumOk && r.value.status == SUCCESS
  }

  /** The response a list of bytes holds, or the exception it causes. */
  method ParseResponse(b: seq<Byte>) returns (r: Result<Response>)
    ensures r == ResponseOf(b)
  {
    hide Sum, Complement, IsStatus;
    if |b| < 1 { return Raised(IndexError); }
    var sop := b[0];
    if sop != SOP { return Raised(SopAssertion); }
    if |b| < 2 { return Raised(IndexError); }
    var status := b[1];
    if !IsStatus(status) { return Raised(KeyError); }
    if |b| < 4 { return Raised(IndexError); }
    var dataLength := Join(b[3], b[2]);
    var data := [];
    if dataLength > 0 {
      var end := if 4 + dataLength <= |b| then 4 + dataLength else |b|;
      data := b[4..end];
    }
    if |b| <= 4 + dataLength + 1 { return Raised(IndexError); }
    var checksumReceived := Join(b[4 + dataLength + 1], b[4 + dataLength]);
    var checksumCalculated := Checksum(b[..4 + dataLength]);
    var checksumOk := checksumCalculated == checksumReceived;
    if |b| <= 4 + dataLength + 2 { return Raised(IndexError); }
    var eop := b[4 + dataLength + 2];
    if eop != EOP { return Raised(EopAssertion); }
    assert data == b[4..4 + dataLength];
    Whole(b);
    hide ResponseOf;
    r := Ok(Response(status, data, checksumOk));
  }

  /** A response long enough to be read to its end. */
  lemma Whole(b: seq<Byte>)
    requires |b| >= 4 && b[0] == SOP && IsStatus(b[1])
    ensures var n := Join(b[3], b[2]);
      |b| >= n + 7 && b[n + 6] == EOP ==>
        ResponseOf(b) == Ok(Response(b[1], b[4..4 + n], Complement(Sum(b[..4 + n])) == Join(b[n + 5], b[n + 4])))
  {
  }

  function ResponseOf(b: seq<Byte>): Result<Response> {
    if |b| < 1 then Raised(IndexError)
    else if b[0] != SOP then Raised(SopAssertion)
    else if |b| < 2 then Raised(IndexError)
    else if !IsStatus(b[1]) then Raised(KeyError)
    else if |b| < 4 then Raised(IndexError)
    else
      var n := Join(b[3], b[2]);
      if |b| < n + 7 then Raised(IndexError)
      else if b[n + 6] != EOP then Raised(EopAssertion)
      else Ok(Response(b[1], b[4..4 + n], Complement(Sum(b[..4 + n])) == Join(b[n + 5], b[n + 4])))
  }

  // ------------------------------------------------------------- the codec

  /** What _make_packet writes, _parse_response reads, if its command is the code of a status. */
  lemma FrameParses(command: Byte, data: seq<Byte>, padding: seq<Byte>)
    requires |data| < 0x1_0000
    ensures ResponseOf(Frame(command, data) + padding)
         == if command in [0, 3, 4, 5, 8, 9, 10, 12, 13, 14, 15] then Ok(Response(command, data, true))
            else Raised(KeyError)
  {
    hide Sum, Complement;
    var b := Frame(command, data) + padding;
    var n := |data|;
    assert Join(b[3], b[2]) == n;
    assert b[..4 + n] == Body(command, data);
    assert b[4..4 + n] == data;
  }

  /** Which bytes each exception is raised for. */
  lemma ParseErrors(b: seq<Byte>)
    ensures ResponseOf(b) == Raised(SopAssertion) <==> b != [] && b[0] != 0x01
    ensures ResponseOf(b) == Raised(KeyError) <==>
      |b| >= 2 && b[0] == 0x01 && b[1] !in [0, 3, 4, 5, 8, 9, 10, 12, 13, 14, 15]
    ensures ResponseOf(b).Ok? || ResponseOf(b) == Raised(EopAssertion) <==>
      |b| >= 4 && b[0] == 0x01 && b[1] in [0, 3, 4, 5, 8, 9, 10, 12, 13, 14, 15] && |b| >= Join(b[3], b[2]) + 7
    ensures ResponseOf(b).Ok? ==> b[Join(b[3], b[2]) + 6] == 0x17
  {
    hide Sum, Complement;
  }

  /** And it accepts nothing else: a response with a good checksum begins with a frame. */
  lemma OnlyFramesParse(b: seq<Byte>)
    ensures var r := ResponseOf(b);
      r.Ok? && r.value.checksumOk ==>
        IsStatus(r.value.status) && |r.value.data| < 0x1_0000 && Frame(r.value.status, r.value.data) <= b
  {
    hide Sum, Complement;
    var parsed := ResponseOf(b);
    if parsed.Ok? && parsed.value.checksumOk {
      var r := parsed.value;
      var n := Join(b[3], b[2]);
      var checksum: int := Complement(Sum(b[..4 + n]));
      assert n % 256 == b[2] && n / 256 == b[3];
      assert checksum % 256 == b[n + 4] && checksum / 256 == b[n + 5];
      assert b[..4 + n] == Body(r.status, r.data);
      assert b[..n + 7] == Frame(r.status, r.data);
    }
  }

  // ------------------------------------------------------------- the device

  datatype Row = Row(arrayId: Byte, rowNumber: Word, data: seq<Byte>)

  /** Whether the device takes a command, and what it answers. */
  datatype Reply = Accept(padding: seq<Byte>) | Refuse(response: seq<Byte>)

  /** The command and data of the frame some bytes begin with. */
  function Unframe(b: seq<Byte>): Option<(Byte, seq<Byte>)> {
    if |b| < 4 then None
    else
      var n := Join(b[3], b[2]);
      if |b| >= n + 7 && b[..n + 7] == Frame(b[1], b[4..4 + n]) then Some((b[1], b[4..4 + n])) else None
  }

  lemma FrameUnframes(command: Byte, data: seq<Byte>)
    requires |data| < 0x1_0000
    ensures Unframe(Frame(command, data)) == Some((command, data))
  {
    var b := Frame(command, data);
    assert Join(b[3], b[2]) == |data|;
    assert b[4..4 + |data|] == data && b[..|b|] == b;
  }

  ghost predicate AllHonest(replies: nat -> Reply) {
    forall k :: replies(k).Refuse? ==> !Success(ResponseOf(replies(k).response))
  }

  class Device {
    var staging: seq<Byte>
    var rows: seq<Row>
    var commands: nat
    const replies: nat -> Reply

    /** A command that is answered with success was taken. */
    ghost predicate Honest() {
      AllHonest(replies)
    }

    constructor (replies: nat -> Reply)
      ensures staging == [] && rows == [] && commands == 0 && this.replies == replies
    {
      staging, rows, commands := [], [], 0;
      this.replies := replies;
    }

    /** A written packet, its report byte stripped, and the answer read back. */
    method Transact(packet: seq<Byte>) returns (response: seq<Byte>)
      modifies this
      ensures commands == old(commands) + 1
      ensures forall command: Byte, data: seq<Byte> ::
        |data| <= MAX_PAYLOAD && packet == [0x00] + Frame(command, data) ==>
          Took(old(staging), old(rows), command, data, replies(old(commands)), staging, rows, response)
    {
      hide Frame, Unframe;
      var frame := if packet == [] then [] else packet[1..];
      commands := commands + 1;
      var reply := replies(commands - 1);
      var heard := Unframe(frame);
      if heard.None? {
        response := Frame(ERR_CHECKSUM, []);
      } else if reply.Refuse? {
        response := reply.response;
      } else {
        var (command, data) := heard.value;
        if command == 0x37 {
          staging := staging + data;
        } else if command == 0x39 && |data| >= 3 {
          rows := rows + [Row(data[0], Join(data[2], data[1]), staging + data[3..])];
          staging := [];
        }
        response := Frame(SUCCESS, []) + reply.padding;
      }
      forall command: Byte, data: seq<Byte> | |data| <= MAX_PAYLOAD && packet == [0x00] + Frame(command, data)
        ensures heard == Some((command, data))
      {
        FrameUnframes(command, data);
        assert packet[1..] == Frame(command, data);
      }
    }
  }

  /** The effect of a command on the device. */
  ghost predicate Took(staging: seq<Byte>, rows: seq<Row>, command: Byte, data: seq<Byte>, reply: Reply,
                       staging': seq<Byte>, rows': seq<Row>, response: seq<Byte>) {
    if reply.Refuse? then staging' == staging && rows' == rows && response == reply.response
    else
      && response == Frame(SUCCESS, []) + reply.padding
      && (command == 0x37 ==> staging' == staging + data && rows' == rows)
      && (command == 0x39 && |data| >= 3 ==>
            staging' == []
            && rows' == rows + [Row(data[0], Join(data[2], data[1]), staging + data[3..])])
  }

  // ------------------------------------------------------------- the host's commands

  method SendCommand(device: Device, command: Byte, data: seq<int>) returns (r: Result<Response>)
    modifies device
    ensures |data| > MAX_PAYLOAD ==>
      && r == Raised(LengthAssertion)
      && device.staging == old(device.staging) && device.rows == old(device.rows)
      && device.commands == old(device.commands)
    ensures |data| <= MAX_PAYLOAD ==>
      && device.commands == old(device.commands) + 1
      && exists response ::
           && r == ResponseOf(response)
           && Took(old(device.staging), old(device.rows), command, Low(data), device.replies(old(device.commands)),
                   device.staging, device.rows, response)
  {
    hide Frame, Took, ResponseOf, Low;
    var packet := MakePacket(command, data);
    if packet.Raised? {
      return Raised(packet.error);
    }
    var responseData := device.Transact(packet.value);
    r := ParseResponse(responseData);
  }

  /** Accepted exactly when the device takes it, and then the data is staged. */
  method SendData(device: Device, data: seq<Byte>) returns (r: Result<bool>)
    requires device.Honest() && |data| <= MAX_PAYLOAD
    modifies device
    ensures device.commands == old(device.commands) + 1 && device.rows == old(device.rows)
    ensures r == Ok(true) <==> device.replies(old(device.commands)).Accept?
    ensures device.staging == if r == Ok(true) then old(device.staging) + data else old(device.staging)
    ensures r != Raised(LengthAssertion)
  {
    hide Frame, ResponseOf;
    var args: seq<int> := data;
    assert Low(args) == data;
    var response := SendCommand(device, SEND_DATA, args);
    Answered(device.replies(old(device.commands)));
    r := Judge(response);
    ParseRaises();
  }

  /** Accepted exactly when the device takes it, and then the row is written behind what was staged. */
  method ProgramRow(device: Device, arrayId: Byte, rowNumber: Word, data: seq<Byte>) returns (r: Result<bool>)
    requires device.Honest() && |data| + 3 <= MAX_PAYLOAD
    modifies device
    ensures device.commands == old(device.commands) + 1
    ensures r == Ok(true) <==> device.replies(old(device.commands)).Accept?
    ensures r == Ok(true) ==>
      && device.staging == []
      && device.rows == old(device.rows) + [Row(arrayId, rowNumber, old(device.staging) + data)]
    ensures r != Ok(true) ==> device.staging == old(device.staging) && device.rows == old(device.rows)
    ensures r != Raised(LengthAssertion)
  {
    hide Frame, ResponseOf;
    var arguments: seq<int> := [arrayId, rowNumber % 256, rowNumber / 256];
    var all: seq<int> := arguments + data;
    assert Low(all)[3..] == data && Low(all)[..3] == arguments;
    var response := SendCommand(device, PROGRAM_ROW, all);
    Answered(device.replies(old(device.commands)));
    r := Judge(response);
    ParseRaises();
  }

  function Judge(response: Result<Response>): Result<bool> {
    match response
    case Raised(e) => Raised(e)
    case Ok(v) => Ok(v.checksumOk && v.status == SUCCESS)
  }

  lemma Answered(reply: Reply)
    ensures reply.Accept? ==> Success(ResponseOf(Frame(SUCCESS, []) + reply.padding))
  {
    if reply.Accept? {
      FrameParses(SUCCESS, [], reply.padding);
    }
  }

  /** Reading a response never trips the length assertion of writing one. */
  lemma ParseRaises()
    ensures forall b :: ResponseOf(b) != Raised(LengthAssertion)
  {
  }

  // ------------------------------------------------------------- flashing

  /** The packets a row takes. */
  function Packets(row: Row): (n: nat)
    ensures n > 0
  {
    if |row.data| < MAX_DATA_LENGTH then 1 else (|row.data| + MAX_DATA_LENGTH - 1) / MAX_DATA_LENGTH
  }

  /** As many as it takes for pieces of at most 48 bytes, one of none for an empty row. */
  lemma PiecesFit(row: Row)
    ensures row.data != [] ==> 48 * (Packets(row) - 1) < |row.data| <= 48 * Packets(row)
    ensures row.data == [] ==> Packets(row) == 1
  {
  }

  ghost predicate AllAccepted(replies: nat -> Reply, lo: nat, hi: nat) {
    forall k | lo <= k < hi :: replies(k).Accept?
  }

  /** How many of the next packets are accepted before the first refusal. */
  ghost function Leading(replies: nat -> Reply, next: nat, packets: nat): (n: nat)
    ensures n <= packets && AllAccepted(replies, next, next + n)
    ensures n < packets ==> replies(next + n).Refuse?
    decreases packets
  {
    if packets == 0 || replies(next).Refuse? then 0 else 1 + Leading(replies, next + 1, packets - 1)
  }

  /** A firmware flashed against a run of replies: the rows written whole, the command that comes next,
      and what is left staged, which is the chunks accepted of the row that was refused. */
  datatype Attempt = Attempt(rows: nat, next: nat, staging: seq<Byte>)

  ghost function Attempted(replies: nat -> Reply, next: nat, staging: seq<Byte>, firmware: seq<Row>): (a: Attempt)
    ensures a.rows <= |firmware|
    decreases |firmware|
  {
    if firmware == [] then Attempt(0, next, staging)
    else
      var taken := Leading(replies, next, Packets(firmware[0]));
      if taken == Packets(firmware[0]) then
        var rest := Attempted(replies, next + taken, [], firmware[1..]);
        rest.(rows := rest.rows + 1)
      else Attempt(0, next + taken + 1, staging + ChunksOf(firmware[0], taken))
  }

  /** The first n chunks of a row that takes more packets than that. */
  function ChunksOf(row: Row, n: nat): seq<Byte>
    requires n < Packets(row)
  {
    row.data[..MAX_DATA_LENGTH * n]
  }

  /** What was staged goes in front of the first row. */
  function Prefixed(staging: seq<Byte>, rows: seq<Row>): seq<Row> {
    if rows == [] then [] else [rows[0].(data := staging + rows[0].data)] + rows[1..]
  }

  /** The packets of a firmware's rows. */
  function AllPackets(firmware: seq<Row>): nat {
    if firmware == [] then 0 else Packets(firmware[0]) + AllPackets(firmware[1..])
  }

  lemma LeadingAll(replies: nat -> Reply, next: nat, packets: nat)
    ensures Leading(replies, next, packets) == packets <==> AllAccepted(replies, next, next + packets)
  {
  }

  /** The leading run is the one that a refusal ends. */
  lemma {:induction false} LeadingIs(replies: nat -> Reply, next: nat, packets: nat, n: nat)
    requires n < packets && AllAccepted(replies, next, next + n) && replies(next + n).Refuse?
    ensures Leading(replies, next, packets) == n
    decreases n
  {
    if n > 0 {
      LeadingIs(replies, next + 1, packets - 1, n - 1);
    }
  }

  /** Every packet accepted: every row goes through and nothing is left staged. */
  lemma {:induction false} AcceptedAttempt(replies: nat -> Reply, next: nat, staging: seq<Byte>, firmware: seq<Row>)
    requires AllAccepted(replies, next, next + AllPackets(firmware))
    ensures Attempted(replies, next, staging, firmware)
         == Attempt(|firmware|, next + AllPackets(firmware), if firmware == [] then staging else [])
    decreases |firmware|
  {
    hide Packets, ChunksOf, Leading;
    if firmware != [] {
      var n := Packets(firmware[0]);
      LeadingAll(replies, next, n);
      AcceptedAttempt(replies, next + n, [], firmware[1..]);
    }
  }

  /** And only then. */
  lemma {:induction false} WholeIffAccepted(replies: nat -> Reply, next: nat, staging: seq<Byte>, firmware: seq<Row>)
    ensures Attempted(replies, next, staging, firmware).rows == |firmware|
        <==> AllAccepted(replies, next, next + AllPackets(firmware))
    decreases |firmware|
  {
    hide Packets, ChunksOf, Leading;
    if firmware != [] {
      var n := Packets(firmware[0]);
      LeadingAll(replies, next, n);
      WholeIffAccepted(replies, next + n, [], firmware[1..]);
    }
  }

  /** One row: its full chunks staged but the last one, which programs it. */
  method FlashRow(device: Device, row: Row) returns (ret: Result<bool>)
    requires device.Honest()
    modifies device
    ensures ret != Raised(LengthAssertion)
    ensures var taken := Leading(device.replies, old(device.commands), Packets(row));
      if taken == Packets(row) then
        && ret == Ok(true)
        && device.commands == old(device.commands) + taken
        && device.staging == []
        && device.rows == old(device.rows) + [row.(data := old(device.staging) + row.data)]
      else
        && ret != Ok(true)
        && device.commands == old(device.commands) + taken + 1
        && device.staging == old(device.staging) + ChunksOf(row, taken)
        && device.rows == old(device.rows)
  {
    hide Leading, ChunksOf;
    var size := |row.data|;
    if size >= MAX_DATA_LENGTH {
      var fullPackets, partialPacketLength := size / MAX_DATA_LENGTH, size % MAX_DATA_LENGTH;
      if partialPacketLength > 0 {
        ret := FlashChunks(device, row, fullPackets, partialPacketLength);
      } else {
        ret := FlashChunks(device, row, fullPackets - 1, MAX_DATA_LENGTH);
      }
    } else {
      ret := FlashChunks(device, row, 0, size);
    }
  }

  /** A row as n chunks to stage and a last piece to program it with. */
  method FlashChunks(device: Device, row: Row, n: nat, last: nat) returns (ret: Result<bool>)
    requires device.Honest()
    requires Packets(row) == n + 1 && |row.data| == MAX_DATA_LENGTH * n + last && last <= MAX_DATA_LENGTH
    modifies device
    ensures ret != Raised(LengthAssertion)
    ensures var taken := Leading(device.replies, old(device.commands), Packets(row));
      if taken == Packets(row) then
        && ret == Ok(true)
        && device.commands == old(device.commands) + taken
        && device.staging == []
        && device.rows == old(device.rows) + [row.(data := old(device.staging) + row.data)]
      else
        && ret != Ok(true)
        && device.commands == old(device.commands) + taken + 1
        && device.staging == old(device.staging) + ChunksOf(row, taken)
        && device.rows == old(device.rows)
  {
    hide Leading, Packets;
    ghost var first, staged := device.commands, device.staging;
    ret := SendChunks(device, row.data, n);
    if ret != Ok(true) {
      LeadingIs(device.replies, first, n + 1, Leading(device.replies, first, n));
      return;
    }
    var at := MAX_DATA_LENGTH * n;
    ret := ProgramRow(device, row.arrayId, row.rowNumber, row.data[at..at + last]);
    CutInTwo(staged, row.data, at);
    LastPacket(device.replies, first, n);
  }

  /** The packet that programs a row, after the ones that staged it. */
  lemma LastPacket(replies: nat -> Reply, next: nat, last: nat)
    requires AllAccepted(replies, next, next + last)
    ensures Leading(replies, next, last + 1) == if replies(next + last).Accept? then last + 1 else last
  {
    if replies(next + last).Accept? {
      LeadingAll(replies, next, last + 1);
    } else {
      LeadingIs(replies, next, last + 1, last);
    }
  }

  lemma CutInTwo(staging: seq<Byte>, data: seq<Byte>, n: nat)
    requires n <= |data|
    ensures staging + data[..n] + data[n..|data|] == staging + data
  {
  }

  /** The chunks before the last one, up to the first that is refused. */
  method SendChunks(device: Device, data: seq<Byte>, n: nat) returns (ret: Result<bool>)
    requires device.Honest() && MAX_DATA_LENGTH * n <= |data|
    modifies device
    ensures device.rows == old(device.rows) && ret != Raised(LengthAssertion)
    ensures var taken := Leading(device.replies, old(device.commands), n);
      && (ret == Ok(true) <==> taken == n)
      && device.commands == old(device.commands) + (if taken == n then n else taken + 1)
      && device.staging == old(device.staging) + data[..MAX_DATA_LENGTH * taken]
  {
    hide Leading;
    ret := Ok(true);
    for i := 0 to n
      invariant ret == Ok(true)
      invariant device.commands == old(device.commands) + i
      invariant AllAccepted(device.replies, old(device.commands), device.commands)
      invariant device.staging == old(device.staging) + data[..MAX_DATA_LENGTH * i]
      invariant device.rows == old(device.rows)
    {
      var at := MAX_DATA_LENGTH * i;
      ret := SendData(device, data[at..at + MAX_DATA_LENGTH]);
      if ret != Ok(true) {
        LeadingIs(device.replies, old(device.commands), n, i);
        return;
      }
      assert data[..MAX_DATA_LENGTH * (i + 1)] == data[..at] + data[at..at + MAX_DATA_LENGTH];
    }
    LeadingAll(device.replies, old(device.commands), n);
  }

  /** True exactly when every packet was accepted, and then the rows written are those of the firmware,
      in order; on a refusal they are the rows before it and nothing else, and the chunks of the refused
      row stay staged. */
  method Flash(device: Device, firmware: seq<Row>) returns (ret: Result<bool>)
    requires device.Honest()
    modifies device
    ensures var a := Attempted(device.replies, old(device.commands), old(device.staging), firmware);
      && device.rows == old(device.rows) + Prefixed(old(device.staging), firmware[..a.rows])
      && device.commands == a.next && device.staging == a.staging
      && (ret == Ok(true) <==> firmware != [] && a.rows == |firmware|)
    ensures ret == Ok(true) <==>
      firmware != []
      && AllAccepted(device.replies, old(device.commands), old(device.commands) + AllPackets(firmware))
    ensures ret != Raised(LengthAssertion)
    ensures firmware == [] ==> ret == Ok(false)
  {
    hide Prefixed, Attempted, Packets, AllPackets, AllAccepted, Leading, ChunksOf;
    ret := Ok(false);
    ghost var first, staged := device.commands, device.staging;
    WholeIffAccepted(device.replies, first, staged, firmware);
    NoRowsYet(staged, firmware);
    for i := 0 to |firmware|
      invariant ret == Ok(i > 0)
      invariant device.rows == old(device.rows) + Prefixed(staged, firmware[..i])
      invariant device.staging == if i == 0 then staged else []
      invariant Attempted(device.replies, first, staged, firmware)
             == Further(i, Attempted(device.replies, device.commands, device.staging, firmware[i..]))
    {
      NextRow(device.replies, device.commands, device.staging, firmware, i);
      ret := FlashRow(device, firmware[i]);
      if ret != Ok(true) { return; }
      OneRowMore(staged, firmware, i);
    }
    NoRowsLeft(device.replies, device.commands, device.staging, firmware);
  }

  /** An attempt after some rows that went through. */
  function Further(rows: nat, a: Attempt): Attempt {
    a.(rows := rows + a.rows)
  }

  lemma NoRowsYet(staging: seq<Byte>, firmware: seq<Row>)
    ensures Prefixed(staging, firmware[..0]) == [] && firmware[0..] == firmware
  {
  }

  lemma NoRowsLeft(replies: nat -> Reply, next: nat, staging: seq<Byte>, firmware: seq<Row>)
    ensures Attempted(replies, next, staging, firmware[|firmware|..]) == Attempt(0, next, staging)
    ensures firmware[..|firmware|] == firmware
  {
  }

  lemma NextRow(replies: nat -> Reply, next: nat, staging: seq<Byte>, firmware: seq<Row>, i: nat)
    requires i < |firmware|
    ensures var taken := Leading(replies, next, Packets(firmware[i]));
      Attempted(replies, next, staging, firmware[i..])
      == if taken == Packets(firmware[i])
         then Further(1, Attempted(replies, next + taken, [], firmware[i + 1..]))
         else Attempt(0, next + taken + 1, staging + ChunksOf(firmware[i], taken))
  {
    hide Leading, Packets, ChunksOf;
    assert firmware[i..][1..] == firmware[i + 1..];
  }

  lemma OneRowMore(staging: seq<Byte>, firmware: seq<Row>, i: nat)
    requires i < |firmware|
    ensures Prefixed(staging, firmware[..i + 1])
         == Prefixed(staging, firmware[..i])
            + [firmware[i].(data := (if i == 0 then staging else []) + firmware[i].data)]
  {
    assert firmware[..i + 1] == firmware[..i] + [firmware[i]];
    assert [] + firmware[i].data == firmware[i].data;
  }

  // ------------------------------------------------------------- flashing again

  /** The rows written are the firmware's exactly when nothing was staged before. */
  lemma FaithfulIffNothingStaged(staging: seq<Byte>, firmware: seq<Row>)
    ensures Prefixed(staging, firmware) == firmware <==> staging == [] || firmware == []
  {
    if firmware != [] {
      if staging == [] {
        assert [] + firmware[0].data == firmware[0].data;
        assert Prefixed(staging, firmware) == firmware;
      } else {
        assert |staging + firmware[0].data| != |firmware[0].data|;
        assert Prefixed(staging, firmware)[0] != firmware[0];
      }
    }
  }

  /** The packets of the refused row that were accepted before the refusal. */
  ghost function TakenOfRefused(replies: nat -> Reply, next: nat, firmware: seq<Row>): (n: nat)
    decreases |firmware|
  {
    if firmware == [] then 0
    else
      var taken := Leading(replies, next, Packets(firmware[0]));
      if taken == Packets(firmware[0]) then TakenOfRefused(replies, next + taken, firmware[1..]) else taken
  }

  /** What a refused attempt leaves staged is empty exactly when it was refused at a row's first packet
      and nothing was staged in front of that row. */
  lemma {:induction false} RefusalLeaves(replies: nat -> Reply, next: nat, staging: seq<Byte>, firmware: seq<Row>)
    requires Attempted(replies, next, staging, firmware).rows < |firmware|
    ensures var a := Attempted(replies, next, staging, firmware);
      var taken := TakenOfRefused(replies, next, firmware);
      && taken < Packets(firmware[a.rows])
      && a.staging == (if a.rows == 0 then staging else []) + ChunksOf(firmware[a.rows], taken)
      && (a.staging == [] <==> taken == 0 && (a.rows > 0 || staging == []))
    decreases |firmware|
  {
    hide Leading, Packets, ChunksOf;
    var n := Packets(firmware[0]);
    var taken := Leading(replies, next, n);
    if taken == n {
      RefusalLeaves(replies, next + n, [], firmware[1..]);
      var rest := Attempted(replies, next + n, [], firmware[1..]);
      assert [] + ChunksOf(firmware[1..][rest.rows], TakenOfRefused(replies, next + n, firmware[1..]))
          == ChunksOf(firmware[1..][rest.rows], TakenOfRefused(replies, next + n, firmware[1..]));
    } else {
      ChunksAreFull(firmware[0], taken);
    }
  }

  /** How far an attempt gets does not depend on what was staged. */
  lemma ProgressIgnoresStaging(replies: nat -> Reply, next: nat, staging: seq<Byte>, firmware: seq<Row>)
    ensures var a, b := Attempted(replies, next, staging, firmware), Attempted(replies, next, [], firmware);
      a.rows == b.rows && a.next == b.next
  {
    hide Leading, Packets, ChunksOf;
  }

  lemma ChunksAreFull(row: Row, n: nat)
    requires n < Packets(row)
    ensures |ChunksOf(row, n)| == MAX_DATA_LENGTH * n
  {
  }

  /** Two attempts in a row on a device that starts with nothing staged, the first refused and the
      second accepted: the second writes the firmware's rows exactly when the first was refused at a
      row's first packet. Refused later, it leaves the chunks it had sent in front of the first row. */
  lemma RetryFaithfulIffRefusedAtFirstPacket(replies: nat -> Reply, next: nat, firmware: seq<Row>)
    requires var first := Attempted(replies, next, [], firmware);
      && first.rows < |firmware|
      && AllAccepted(replies, first.next, first.next + AllPackets(firmware))
    ensures var first := Attempted(replies, next, [], firmware);
      var second := Attempted(replies, first.next, first.staging, firmware);
      && second.rows == |firmware| && second.staging == []
      && (Prefixed(first.staging, firmware) == firmware <==> TakenOfRefused(replies, next, firmware) == 0)
  {
    hide Attempted, Prefixed, TakenOfRefused;
    var first := Attempted(replies, next, [], firmware);
    RefusalLeaves(replies, next, [], firmware);
    AcceptedAttempt(replies, first.next, first.staging, firmware);
    FaithfulIffNothingStaged(first.staging, firmware);
  }

  // ------------------------------------------------------------- any number of attempts

  /** n attempts in a row, each of them refused. */
  ghost predicate AllRefused(replies: nat -> Reply, next: nat, firmware: seq<Row>, n: nat)
    decreases n
  {
    n > 0 ==>
      var a := Attempted(replies, next, [], firmware);
      a.rows < |firmware| && AllRefused(replies, a.next, firmware, n - 1)
  }

  /** The command that comes next after them, and what they leave staged. */
  ghost function AfterAttempts(replies: nat -> Reply, next: nat, staging: seq<Byte>, firmware: seq<Row>, n: nat)
    : (nat, seq<Byte>)
    decreases n
  {
    if n == 0 then (next, staging)
    else
      var a := Attempted(replies, next, staging, firmware);
      AfterAttempts(replies, a.next, a.staging, firmware, n - 1)
  }

  /** Whether they leave the device clean, by where each was refused: at a row's first packet, and behind a
      row that went through or on a device that was clean. */
  ghost predicate CleanAfter(replies: nat -> Reply, next: nat, clean: bool, firmware: seq<Row>, n: nat)
    decreases n
  {
    if n == 0 then clean
    else
      var a := Attempted(replies, next, [], firmware);
      var cleanNow := TakenOfRefused(replies, next, firmware) == 0 && (a.rows > 0 || clean);
      CleanAfter(replies, a.next, cleanNow, firmware, n - 1)
  }

  lemma {:induction false} StagedUnlessClean(replies: nat -> Reply, next: nat, staging: seq<Byte>,
                                             firmware: seq<Row>, n: nat)
    requires AllRefused(replies, next, firmware, n)
    ensures AfterAttempts(replies, next, staging, firmware, n).1 == []
        <==> CleanAfter(replies, next, staging == [], firmware, n)
    decreases n
  {
    if n > 0 {
      ProgressIgnoresStaging(replies, next, staging, firmware);
      RefusalLeaves(replies, next, staging, firmware);
      hide Attempted, TakenOfRefused, Packets, ChunksOf;
      var a := Attempted(replies, next, staging, firmware);
      StagedUnlessClean(replies, a.next, a.staging, firmware, n - 1);
    }
  }

  /** After any number of refused attempts, on a device with anything staged, an accepted one writes the
      firmware's rows exactly when those before it leave the device clean. */
  lemma FaithfulAfterRefusals(replies: nat -> Reply, next: nat, staging: seq<Byte>, firmware: seq<Row>, n: nat)
    requires firmware != [] && AllRefused(replies, next, firmware, n)
    requires var last := AfterAttempts(replies, next, staging, firmware, n).0;
      AllAccepted(replies, last, last + AllPackets(firmware))
    ensures var (last, staged) := AfterAttempts(replies, next, staging, firmware, n);
      && Attempted(replies, last, staged, firmware) == Attempt(|firmware|, last + AllPackets(firmware), [])
      && (Prefixed(staged, firmware) == firmware <==> CleanAfter(replies, next, staging == [], firmware, n))
  {
    hide Attempted, Prefixed, CleanAfter, AllRefused;
    var (last, staged) := AfterAttempts(replies, next, staging, firmware, n);
    StagedUnlessClean(replies, next, staging, firmware, n);
    AcceptedAttempt(replies, last, staged, firmware);
    FaithfulIffNothingStaged(staged, firmware);
  }

  /** An honest device that takes the first packet, refuses the second and takes everything after it. */
  function RefusesSecond(): nat -> Reply {
    k => if k == 1 then Refuse(Frame(ERR_CHECKSUM, [])) else Accept([])
  }

  lemma RefusalIsHonest()
    ensures AllHonest(RefusesSecond())
  {
    var refusal := Frame(ERR_CHECKSUM, []);
    FrameParses(ERR_CHECKSUM, [], []);
    assert refusal + [] == refusal;
    hide ResponseOf, Frame;
  }

  /** So it happens to every firmware whose first row takes more than one packet. */
  lemma RetryCanCorrupt(firmware: seq<Row>)
    requires firmware != [] && Packets(firmware[0]) > 1
    ensures AllHonest(RefusesSecond())
    ensures var first := Attempted(RefusesSecond(), 0, [], firmware);
      var second := Attempted(RefusesSecond(), first.next, first.staging, firmware);
      && first.rows == 0 && first.staging == firmware[0].data[..MAX_DATA_LENGTH]
      && second.rows == |firmware| && Prefixed(first.staging, firmware) != firmware
  {
    hide *;
    RefusalIsHonest();
    SecondIsRefused(firmware);
    RetryFaithfulIffRefusedAtFirstPacket(RefusesSecond(), 0, firmware);
  }

  lemma SecondIsRefused(firmware: seq<Row>)
    requires firmware != [] && Packets(firmware[0]) > 1
    ensures Attempted(RefusesSecond(), 0, [], firmware) == Attempt(0, 2, firmware[0].data[..MAX_DATA_LENGTH])
    ensures TakenOfRefused(RefusesSecond(), 0, firmware) == 1
    ensures AllAccepted(RefusesSecond(), 2, 2 + AllPackets(firmware))
  {
    PiecesFit(firmware[0]);
    hide Frame, Packets, AllPackets;
    LeadingIs(RefusesSecond(), 0, Packets(firmware[0]), 1);
    hide Leading;
    assert [] + ChunksOf(firmware[0], 1) == firmware[0].data[..MAX_DATA_LENGTH];
  }
}
