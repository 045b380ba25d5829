/** The fake gripper's register file and its protocol: what the status block reports given what
    the command block asked for, with rACT edge tracking. */
module RegisterModel {
  import opened Blocks
  import opened Bytes

  const COMMAND_ADDRESS := 1000
  const STATUS_ADDRESS := 2000
  const REGISTER_COUNT := STATUS_ADDRESS + BLOCK_REGISTERS
  const REPORTED_CURRENT: bv8 := 0x2A

  // ------------------------------------------------------- the device as a value

  datatype Device = Device(
    command: Command, status: Status, previousActivate: bool, activationDone: bool)

  /** The status block a device in the given condition reports, field by field:
      0x31 is gACT with gSTA complete, 0xF9 adds gGTO and gOBJ at the requested position. */
  function Report(command: Command, done: bool, fault: bv8): Status {
    var flags: bv8 :=
      if !command.Get(ACTIVATE) then 0x00
      else if !done then 0x01
      else if command.Get(GO_TO) then 0xF9 else 0x31;
    Status(flags, 0, fault, command.positionRequest, command.positionRequest, REPORTED_CURRENT, ZERO_TAIL)
  }

  /** The device acts on its command block: a rising rACT edge completes the activation,
      a clear rACT resets it and drops the latched fault. */
  function React(d: Device): Device {
    var active := d.command.Get(ACTIVATE);
    var done := active && (d.activationDone || !d.previousActivate);
    Device(d.command, Report(d.command, done, if active then d.status.fault else 0), active, done)
  }

  /** One exchange lands: the three wire registers replace the documented command bytes,
      the reserved tail of the device's block stays. */
  function Land(d: Device, c: Command): Device {
    React(d.(command := c.(tail := d.command.tail)))
  }

  /** What the host sees of a status block read through the three wire registers. */
  function HostView(s: Status): Status {
    s.(tail := ZERO_TAIL)
  }

  /** Every state the device can be in: the sweep is done exactly while rACT is held. */
  predicate Tracked(d: Device) {
    d.previousActivate == d.activationDone
  }

  /** The device has acted on its current command block since anything else touched it. */
  predicate Settled(d: Device) {
    && d.previousActivate == d.activationDone == d.command.Get(ACTIVATE)
    && d.status == Report(d.command, d.activationDone, d.status.fault)
    && (!d.command.Get(ACTIVATE) ==> d.status.fault == 0)
  }

  lemma ReactSettles(d: Device)
    requires Tracked(d)
    ensures Settled(React(d)) && React(d).command == d.command
  {
  }

  // --------------------------------------------------- status bit-field writers

  function WithField(bits: bv8, mask: bv8, value: bv8): bv8 {
    (bits & !mask) | (value & mask)
  }

  function WithFlag(bits: bv8, mask: bv8, on: bool): bv8 {
    if on then bits | mask else bits & !mask
  }

  function SetActivated(s: Status, on: bool): (r: Status)
    ensures r.Activated() == on
    ensures r.GoToEnabled() == s.GoToEnabled()
    ensures r.Activation() == s.Activation() && r.Detection() == s.Detection()
    ensures r == s.(flags := r.flags) && r.flags & !0x01 == s.flags & !0x01
    ensures r.flags & 0x01 == if on then 0x01 else 0x00
  {
    s.(flags := WithFlag(s.flags, 0x01, on))
  }

  function SetGoToEnabled(s: Status, on: bool): (r: Status)
    ensures r.GoToEnabled() == on
    ensures r.Activated() == s.Activated()
    ensures r.Activation() == s.Activation() && r.Detection() == s.Detection()
    ensures r == s.(flags := r.flags) && r.flags & !0x08 == s.flags & !0x08
    ensures r.flags & 0x08 == if on then 0x08 else 0x00
  {
    s.(flags := WithFlag(s.flags, 0x08, on))
  }

  function ActivationCode(a: ActivationState): bv8 {
    match a case Reset => 0 case InProgress => 1 case Reserved => 2 case Complete => 3
  }

  function DetectionCode(o: ObjectDetection): bv8 {
    match o case Moving => 0 case DetectedWhileOpening => 1 case DetectedWhileClosing => 2 case AtRequestedPosition => 3
  }

  function SetActivationState(s: Status, a: ActivationState): (r: Status)
    ensures r.Activation() == a
    ensures r.Activated() == s.Activated() && r.GoToEnabled() == s.GoToEnabled()
    ensures r.Detection() == s.Detection()
    ensures r == s.(flags := r.flags) && r.flags & !0x30 == s.flags & !0x30
    ensures r.flags & 0x30
         == match a case Reset => 0x00 case InProgress => 0x10 case Reserved => 0x20 case Complete => 0x30
  {
    s.(flags := WithField(s.flags, 0x30, ActivationCode(a) << 4))
  }

  function SetObjectDetection(s: Status, o: ObjectDetection): (r: Status)
    ensures r.Detection() == o
    ensures r.Activated() == s.Activated() && r.GoToEnabled() == s.GoToEnabled()
    ensures r.Activation() == s.Activation()
    ensures r == s.(flags := r.flags) && r.flags & !0xC0 == s.flags & !0xC0
    ensures r.flags & 0xC0
         == match o
            case Moving => 0x00 case DetectedWhileOpening => 0x40
            case DetectedWhileClosing => 0x80 case AtRequestedPosition => 0xC0
  {
    s.(flags := WithField(s.flags, 0xC0, DetectionCode(o) << 6))
  }

  // ------------------------------------------------------------ the register file

  /** Computed in 32 unsigned bits, so an empty range at address 0 wraps and is refused. */
  predicate ContainsRange(address: Word, quantity: Word)
    ensures ContainsRange(address, quantity) <==>
      if quantity == 0 then 1 <= address <= 2008 else address + quantity <= 2008
  {
    var last := (address + quantity - 1) % 0x1_0000_0000;
    last < REGISTER_COUNT
  }

  ghost function DeviceOf(registers: seq<bv16>, previousActivate: bool, activationDone: bool): Device
    requires |registers| == REGISTER_COUNT
  {
    Device(CommandOf(Unpack(registers[COMMAND_ADDRESS..COMMAND_ADDRESS + BLOCK_REGISTERS])),
           StatusOf(Unpack(registers[STATUS_ADDRESS..])), previousActivate, activationDone)
  }

  class Model {
    const registers: array<bv16>
    var previousActivateBit: bool
    var activationDone: bool

    ghost predicate Valid()
      reads this
    {
      registers.Length == REGISTER_COUNT && previousActivateBit == activationDone
    }

    ghost function View(): (d: Device)
      requires Valid()
      reads this, registers
      ensures Tracked(d)
    {
      DeviceOf(registers[..], previousActivateBit, activationDone)
    }

    constructor ()
      ensures Valid() && fresh(registers)
      ensures forall i :: 0 <= i < REGISTER_COUNT ==> registers[i] == 0
      ensures !previousActivateBit
    {
      registers := new bv16[REGISTER_COUNT](_ => 0);
      previousActivateBit, activationDone := false, false;
    }

    /** Command-block reads answer zeros; one that reaches past the file is refused whole. */
    method Read(address: Word, quantity: Word, out: array<bv16>)
      requires Valid() && out != registers && quantity <= out.Length
      modifies out
      ensures !ContainsRange(address, quantity) ==> out[..] == old(out[..])
      ensures ContainsRange(address, quantity) ==>
        && address + quantity <= REGISTER_COUNT
        && (forall i :: 0 <= i < quantity ==>
             out[i] == if 1000 <= address + i < 1008 then 0 else registers[address + i])
        && out[quantity..] == old(out[quantity..])
    {
      if !ContainsRange(address, quantity) {
        return;
      }
      for i := 0 to quantity
        invariant forall k :: 0 <= k < i ==> out[k] == Answer(address + k)
        invariant out[i..] == old(out[i..])
      {
        var reg := address + i;
        var inCommandBlock := COMMAND_ADDRESS <= reg < COMMAND_ADDRESS + BLOCK_REGISTERS;
        out[i] := if inCommandBlock then 0 else registers[reg];
      }
    }

    /** What a read finds in a register. */
    function Answer(register: nat): bv16
      requires register < registers.Length
      reads registers
    {
      if COMMAND_ADDRESS <= register < COMMAND_ADDRESS + BLOCK_REGISTERS then 0 else registers[register]
    }

    method ReadCommand() returns (c: Command)
      requires Valid()
      ensures c == View().command
    {
      var decoded := new bv8[BLOCK_BYTES](_ => 0);
      BytesFromRegisters(registers[COMMAND_ADDRESS..COMMAND_ADDRESS + BLOCK_REGISTERS], decoded);
      c := CommandOf(decoded[..]);
      assert registers[COMMAND_ADDRESS..COMMAND_ADDRESS + BLOCK_REGISTERS]
        == registers[..][COMMAND_ADDRESS..COMMAND_ADDRESS + BLOCK_REGISTERS];
    }

    method ReadStatus() returns (s: Status)
      requires Valid()
      ensures s == View().status
    {
      var decoded := new bv8[BLOCK_BYTES](_ => 0);
      BytesFromRegisters(registers[STATUS_ADDRESS..], decoded);
      s := StatusOf(decoded[..]);
      assert registers[STATUS_ADDRESS..] == registers[..][STATUS_ADDRESS..];
    }

    method SetStatus(s: Status)
      requires Valid()
      modifies registers
      ensures View() == old(View()).(status := s)
      ensures registers[..STATUS_ADDRESS] == old(registers[..STATUS_ADDRESS])
    {
      hide Pack, Unpack, StatusOf, CommandOf;
      ghost var before := registers[..];
      var block := RegistersFromBytes(s.Bytes(), BLOCK_REGISTERS);
      for i := 0 to BLOCK_REGISTERS
        invariant registers[..STATUS_ADDRESS] == before[..STATUS_ADDRESS]
        invariant block[..] == Pack(s.Bytes(), BLOCK_REGISTERS)
        invariant forall k :: 0 <= k < i ==> registers[STATUS_ADDRESS + k] == block[k]
      {
        registers[STATUS_ADDRESS + i] := block[i];
      }
      TailIs(registers[..], STATUS_ADDRESS, block[..]);
      StatusLands(before, registers[..], s, previousActivateBit, activationDone);
    }

    /** processCommand: the edge bits change here, the new status is returned. */
    method ProcessCommand(command: Command, currentStatus: Status) returns (nextStatus: Status)
      requires Valid()
      modifies this
      ensures Valid()
      ensures var d := React(Device(command, currentStatus, old(previousActivateBit), old(activationDone)));
        nextStatus == d.status && previousActivateBit == d.previousActivate && activationDone == d.activationDone
      ensures var active, goTo := command.action & 0x01 != 0, command.action & 0x08 != 0;
        && previousActivateBit == active
        && activationDone == (active && (old(activationDone) || !old(previousActivateBit)))
        && nextStatus.flags == (if !active then 0x00 else if !activationDone then 0x01
                                else if goTo then 0xF9 else 0x31)
        && nextStatus.fault == (if active then currentStatus.fault else 0x00)
        && nextStatus.positionRequestEcho == nextStatus.position == command.positionRequest
        && nextStatus.current == 0x2A
    {
      var activateBit := command.Get(ACTIVATE);
      var fault := currentStatus.fault;
      if activateBit && !previousActivateBit {
        activationDone := true;
      }
      if !activateBit {
        activationDone := false;
        fault := 0;
      }
      previousActivateBit := activateBit;

      nextStatus := NoStatus().(fault := fault);
      nextStatus := SetActivated(nextStatus, activateBit);
      if activateBit && activationDone {
        nextStatus := SetActivationState(nextStatus, Complete);
        if command.Get(GO_TO) {
          nextStatus := SetGoToEnabled(nextStatus, true);
          nextStatus := SetObjectDetection(nextStatus, AtRequestedPosition);
        }
      }
      nextStatus := nextStatus.(positionRequestEcho := command.positionRequest,
                                position := command.positionRequest,
                                current := REPORTED_CURRENT);
    }

    /** The values land, one register after another. */
    method CopyIn(address: Word, values: seq<bv16>)
      requires Valid() && address + |values| <= REGISTER_COUNT
      modifies registers
      ensures registers[..] == old(registers[..address]) + values + old(registers[address + |values|..])
    {
      for i := 0 to |values|
        invariant registers[..] == old(registers[..address]) + values[..i] + old(registers[address + i..])
      {
        registers[address + i] := values[i];
      }
      assert values[..|values|] == values;
    }

    /** Any write makes the device act; one that reaches past the file is refused whole. */
    method Write(address: Word, values: seq<bv16>)
      requires Valid() && |values| < 0x1_0000
      modifies this, registers
      ensures Valid()
      ensures !ContainsRange(address, |values|) ==>
        registers[..] == old(registers[..]) && View() == old(View())
      ensures ContainsRange(address, |values|) ==>
        && address + |values| <= REGISTER_COUNT
        && var written := old(registers[..address]) + values + old(registers[address + |values|..]);
        && View() == React(DeviceOf(written, old(previousActivateBit), old(activationDone)))
        && registers[..STATUS_ADDRESS] == written[..STATUS_ADDRESS]
        && Settled(View())
    {
      if !ContainsRange(address, |values|) {
        return;
      }
      ghost var written := registers[..address] + values + registers[address + |values|..];
      CopyIn(address, values);
      var c := ReadCommand();
      var s := ReadStatus();
      ReactSettles(Device(c, s, previousActivateBit, activationDone));
      s := ProcessCommand(c, s);
      SetStatus(s);
      hide Settled;
      assert registers[..STATUS_ADDRESS] == written[..STATUS_ADDRESS];
    }

    /** The server side of one FC 0x17 transaction: the command registers land,
        then the status registers are read. */
    method Exchange(command: Command) returns (status: Status)
      requires Valid()
      modifies this, registers
      ensures Valid()
      ensures View() == Land(old(View()), command)
      ensures status == HostView(View().status)
      ensures Halves(registers[1000], command.action, command.reserved1)
      ensures Halves(registers[1001], command.reserved2, command.positionRequest)
      ensures Halves(registers[1002], command.speed, command.force)
      ensures Halves(registers[2000], status.flags, status.reserved1)
      ensures Halves(registers[2001], status.fault, status.positionRequestEcho)
      ensures Halves(registers[2002], status.position, status.current)
    {
      hide Pack, Unpack, CommandOf, StatusOf, Report, Command.Get, Halves, Command.Bytes, Settled;
      var packed := RegistersFromBytes(command.Bytes(), WIRE_REGISTERS);
      var values := packed[..];
      ghost var file := registers[..];
      WireLands(file, command, previousActivateBit, activationDone);
      assert registers[..COMMAND_ADDRESS] == file[..COMMAND_ADDRESS];
      assert registers[COMMAND_ADDRESS + WIRE_REGISTERS..] == file[COMMAND_ADDRESS + WIRE_REGISTERS..];
      Write(COMMAND_ADDRESS, values);
      WireLies(file, values, registers[..]);
      CommandWire(values, command);
      status := ReadWire();
    }

    /** The host's readStatus: the three wire registers of the status block. */
    method ReadWire() returns (status: Status)
      requires Valid()
      ensures status == HostView(View().status)
      ensures Halves(registers[2000], status.flags, status.reserved1)
      ensures Halves(registers[2001], status.fault, status.positionRequestEcho)
      ensures Halves(registers[2002], status.position, status.current)
    {
      var out := new bv16[WIRE_REGISTERS](_ => 0);
      Read(STATUS_ADDRESS, WIRE_REGISTERS, out);
      ghost var block := registers[..][STATUS_ADDRESS..];
      var read := out[..];
      assert read == block[..WIRE_REGISTERS];
      HostReads(block, read);
      status := StatusOf(Unpack(read) + ZERO_TAIL);
      StatusWire(read, status);
    }
  }

  lemma TailIs<T>(s: seq<T>, at: nat, tail: seq<T>)
    requires |s| == at + |tail|
    requires forall k :: 0 <= k < |tail| ==> s[at + k] == tail[k]
    ensures s[at..] == tail
  {
  }

  /** Replacing the status registers replaces the device's status and nothing else. */
  lemma StatusLands(before: seq<bv16>, after: seq<bv16>, s: Status, previousActivate: bool, done: bool)
    requires |before| == |after| == REGISTER_COUNT && after[..STATUS_ADDRESS] == before[..STATUS_ADDRESS]
    requires after[STATUS_ADDRESS..] == Pack(s.Bytes(), BLOCK_REGISTERS)
    ensures DeviceOf(after, previousActivate, done) == DeviceOf(before, previousActivate, done).(status := s)
  {
    hide Pack, Unpack;
    UnpackPack(s.Bytes(), BLOCK_REGISTERS);
    SameCommandBlock(before, after);
  }

  lemma SameCommandBlock(a: seq<bv16>, b: seq<bv16>)
    requires |a| == |b| == REGISTER_COUNT && a[..STATUS_ADDRESS] == b[..STATUS_ADDRESS]
    ensures a[COMMAND_ADDRESS..COMMAND_ADDRESS + BLOCK_REGISTERS]
         == b[COMMAND_ADDRESS..COMMAND_ADDRESS + BLOCK_REGISTERS]
  {
    forall i | COMMAND_ADDRESS <= i < COMMAND_ADDRESS + BLOCK_REGISTERS ensures a[i] == b[i] {
      assert a[i] == a[..STATUS_ADDRESS][i] && b[i] == b[..STATUS_ADDRESS][i];
    }
  }

  /** Overwriting part of a sequence: what lies behind it, and the stretch from its start. */
  lemma OverwriteSlices<T>(s: seq<T>, at: nat, values: seq<T>, end: nat)
    requires at + |values| <= end <= |s|
    ensures
      var written := s[..at] + values + s[at + |values|..];
      written[end..] == s[end..] && written[at..end] == values + s[at..end][|values|..]
  {
  }

  /** Writing the packed wire bytes into the register file is Land on the device value. */
  lemma WireLands(registers: seq<bv16>, c: Command, previousActivate: bool, done: bool)
    requires |registers| == REGISTER_COUNT
    ensures
      var written := registers[..COMMAND_ADDRESS] + Pack(c.Bytes(), WIRE_REGISTERS)
        + registers[COMMAND_ADDRESS + WIRE_REGISTERS..];
      React(DeviceOf(written, previousActivate, done)) == Land(DeviceOf(registers, previousActivate, done), c)
  {
    var wire := Pack(c.Bytes(), WIRE_REGISTERS);
    var before := registers[COMMAND_ADDRESS..COMMAND_ADDRESS + BLOCK_REGISTERS];
    WireSlices(registers, wire);
    WireBytes(before, c);
    hide Pack, Unpack, React, CommandOf, StatusOf, Command.Bytes;
  }

  lemma WireSlices(registers: seq<bv16>, wire: seq<bv16>)
    requires |registers| == REGISTER_COUNT && |wire| == WIRE_REGISTERS
    ensures
      var written := registers[..COMMAND_ADDRESS] + wire + registers[COMMAND_ADDRESS + WIRE_REGISTERS..];
      && written[COMMAND_ADDRESS..COMMAND_ADDRESS + BLOCK_REGISTERS]
           == wire + registers[COMMAND_ADDRESS..COMMAND_ADDRESS + BLOCK_REGISTERS][WIRE_REGISTERS..]
      && written[STATUS_ADDRESS..] == registers[STATUS_ADDRESS..]
  {
    OverwriteSlices(registers, COMMAND_ADDRESS, wire, COMMAND_ADDRESS + BLOCK_REGISTERS);
    OverwriteSlices(registers, COMMAND_ADDRESS, wire, STATUS_ADDRESS);
  }

  /** Where the wire registers land. */
  lemma WireLies(before: seq<bv16>, values: seq<bv16>, after: seq<bv16>)
    requires |before| == |after| == REGISTER_COUNT && |values| == WIRE_REGISTERS
    requires after[..STATUS_ADDRESS]
          == (before[..COMMAND_ADDRESS] + values + before[COMMAND_ADDRESS + WIRE_REGISTERS..])[..STATUS_ADDRESS]
    ensures after[1000] == values[0] && after[1001] == values[1] && after[1002] == values[2]
  {
    var written := before[..COMMAND_ADDRESS] + values + before[COMMAND_ADDRESS + WIRE_REGISTERS..];
    forall i | 0 <= i < 3 ensures after[1000 + i] == values[i] {
      assert after[..STATUS_ADDRESS][1000 + i] == written[..STATUS_ADDRESS][1000 + i];
    }
    assert after[1000 + 0] == values[0];
  }

  /** The bytes of a command in its wire registers. */
  lemma CommandWire(values: seq<bv16>, c: Command)
    requires values == Pack(c.Bytes(), WIRE_REGISTERS)
    ensures Halves(values[0], c.action, c.reserved1)
    ensures Halves(values[1], c.reserved2, c.positionRequest)
    ensures Halves(values[2], c.speed, c.force)
  {
    RegisterHalves(c.action, c.reserved1);
    RegisterHalves(c.reserved2, c.positionRequest);
    RegisterHalves(c.speed, c.force);
    hide Halves, Register;
  }

  /** The bytes of a status that three registers were read for. */
  lemma StatusWire(read: seq<bv16>, s: Status)
    requires |read| == WIRE_REGISTERS && s == StatusOf(Unpack(read) + ZERO_TAIL)
    ensures Halves(read[0], s.flags, s.reserved1)
    ensures Halves(read[1], s.fault, s.positionRequestEcho)
    ensures Halves(read[2], s.position, s.current)
  {
    Split(read[0]); Split(read[1]); Split(read[2]);
    hide Halves, High, Low;
  }

  lemma Split(r: bv16)
    ensures Halves(r, High(r), Low(r))
  {
    RegisterJoins(r);
    RegisterHalves(High(r), Low(r));
    hide *;
  }

  /** The wire registers in front of the reserved ones of a block. */
  lemma WireBytes(block: seq<bv16>, c: Command)
    requires |block| == BLOCK_REGISTERS
    ensures CommandOf(Unpack(Pack(c.Bytes(), WIRE_REGISTERS) + block[WIRE_REGISTERS..]))
         == c.(tail := CommandOf(Unpack(block)).tail)
  {
    var wire, rest := Pack(c.Bytes(), WIRE_REGISTERS), block[WIRE_REGISTERS..];
    UnpackPack(c.Bytes(), WIRE_REGISTERS);
    UnpackPrefix(wire, rest);
    UnpackPrefix(block[..WIRE_REGISTERS], rest);
    assert block == block[..WIRE_REGISTERS] + rest;
    hide Pack, Unpack;
    assert Unpack(wire + rest)[6..] == Unpack(rest) == Unpack(block)[6..];
    assert Unpack(wire + rest)[..6] == c.Bytes()[..6] == c.Wire();
  }

  lemma UnpackPrefix(a: seq<bv16>, b: seq<bv16>)
    ensures Unpack(a + b) == Unpack(a) + Unpack(b)
  {
    forall i | 0 <= i < 2 * |a + b| ensures Unpack(a + b)[i] == (Unpack(a) + Unpack(b))[i] {
      if i >= 2 * |a| {
        assert (i - 2 * |a|) / 2 == i / 2 - |a| && (i - 2 * |a|) % 2 == i % 2;
      }
    }
  }

  lemma HostReads(block: seq<bv16>, read: seq<bv16>)
    requires |block| == BLOCK_REGISTERS && |read| == WIRE_REGISTERS && read == block[..WIRE_REGISTERS]
    ensures StatusOf(Unpack(read) + ZERO_TAIL) == HostView(StatusOf(Unpack(block)))
  {
    UnpackPrefix(read, block[WIRE_REGISTERS..]);
    assert block == read + block[WIRE_REGISTERS..];
  }

  // ----------------------------------------------------- connecting does not disturb

  /** The command image a new connection starts from: the echoes of the gripper's own status,
      speed and force at their maximum. */
  function Seed(first: Status): Command {
    Defaults().With(ACTIVATE, first.Activated()).With(GO_TO, first.GoToEnabled())
      .(positionRequest := first.positionRequestEcho)
  }

  /** Sending the seeded command back to a settled device reproduces its status block byte for
      byte and causes no rACT edge, whatever command it is running. */
  lemma ConnectingDoesNotDisturb(d: Device)
    requires Settled(d)
    ensures
      var after := Land(d, Seed(HostView(d.status)));
      after.status == d.status && after.previousActivate == d.previousActivate
      && after.activationDone == d.activationDone && Settled(after)
  {
  }

  /** A device nothing was ever written to is not settled: its first exchange shows. */
  lemma ConnectingShowsOnUnwrittenDevice()
    ensures
      var d := Device(CommandOf(seq(16, _ => 0)), NoStatus(), false, false);
      Tracked(d) && !Settled(d) && Land(d, Seed(HostView(d.status))).status != d.status
  {
  }
}
