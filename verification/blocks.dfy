/** The gripper's command and status blocks: sixteen bytes each, six of them documented,
    and the MSB-first packing of their bytes into the sixteen-bit registers of the wire. */
module Blocks {

  const BLOCK_BYTES := 16
  const DOCUMENTED_BYTES := 6
  const BLOCK_REGISTERS := 8
  const WIRE_REGISTERS := 3

  /** The reserved bytes 6 to 15 of a block. */
  type Tail = t: seq<bv8> | |t| == BLOCK_BYTES - DOCUMENTED_BYTES witness [0, 0, 0, 0, 0, 0, 0, 0, 0, 0]

  const ZERO_TAIL: Tail := [0, 0, 0, 0, 0, 0, 0, 0, 0, 0]

  // ---------------------------------------------------------------- command

  const ACTIVATE: bv8 := 0x01
  const GO_TO: bv8 := 0x08

  datatype Command = Command(
    action: bv8, reserved1: bv8, reserved2: bv8,
    positionRequest: bv8, speed: bv8, force: bv8, tail: Tail)
  {
    predicate Get(mask: bv8) { action & mask != 0 }

    function With(mask: bv8, on: bool): Command {
      this.(action := if on then action | mask else action & !mask)
    }

    /** The documented bytes, the only ones the wire carries. */
    function Wire(): (w: seq<bv8>)
      ensures |w| == DOCUMENTED_BYTES
    {
      [action, reserved1, reserved2, positionRequest, speed, force]
    }

    function Bytes(): (b: seq<bv8>)
      ensures |b| == BLOCK_BYTES
    {
      Wire() + tail
    }
  }

  function CommandOf(b: seq<bv8>): Command
    requires |b| == BLOCK_BYTES
  {
    Command(b[0], b[1], b[2], b[3], b[4], b[5], b[6..])
  }

  function Defaults(): Command {
    Command(ACTIVATE, 0, 0, 0, 0xFF, 0xFF, ZERO_TAIL)
  }

  // ----------------------------------------------------------------- status

  datatype ActivationState = Reset | InProgress | Reserved | Complete

  datatype ObjectDetection = Moving | DetectedWhileOpening | DetectedWhileClosing | AtRequestedPosition

  datatype Status = Status(
    flags: bv8, reserved1: bv8, fault: bv8, positionRequestEcho: bv8,
    position: bv8, current: bv8, tail: Tail)
  {
    predicate Activated() { flags & 0x01 != 0 }

    predicate GoToEnabled() { flags & 0x08 != 0 }

    function Activation(): ActivationState {
      var field := (flags & 0x30) >> 4;
      if field == 0 then Reset else if field == 1 then InProgress else if field == 2 then Reserved else Complete
    }

    function Detection(): ObjectDetection {
      var field := (flags & 0xC0) >> 6;
      if field == 0 then Moving else if field == 1 then DetectedWhileOpening
      else if field == 2 then DetectedWhileClosing else AtRequestedPosition
    }

    /** Gripper fault codes outside the none, warning and minor tiers are major, unknown ones included. */
    predicate MajorFault() {
      var code := fault & 0x0F;
      !(code == 0 || code == 4 || code == 5 || code == 7 || code == 8 || code == 9)
    }

    function Wire(): (w: seq<bv8>)
      ensures |w| == DOCUMENTED_BYTES
    {
      [flags, reserved1, fault, positionRequestEcho, position, current]
    }

    function Bytes(): (b: seq<bv8>)
      ensures |b| == BLOCK_BYTES
    {
      Wire() + tail
    }
  }

  function StatusOf(b: seq<bv8>): Status
    requires |b| == BLOCK_BYTES
  {
    Status(b[0], b[1], b[2], b[3], b[4], b[5], b[6..])
  }

  function NoStatus(): Status {
    Status(0, 0, 0, 0, 0, 0, ZERO_TAIL)
  }

  // ---------------------------------------------------------------- packing

  function Register(high: bv8, low: bv8): bv16 {
    ((high as bv16) << 8) | (low as bv16)
  }

  function High(r: bv16): bv8 { (r >> 8) as bv8 }

  function Low(r: bv16): bv8 { (r & 0xFF) as bv8 }

  /** The first count registers of a block: byte 2N is the high byte of register N. */
  function Pack(block: seq<bv8>, count: nat): (r: seq<bv16>)
    requires 2 * count <= |block|
    ensures |r| == count
  {
    seq(count, i requires 0 <= i < count => Register(block[2 * i], block[2 * i + 1]))
  }

  function Unpack(registers: seq<bv16>): (b: seq<bv8>)
    ensures |b| == 2 * |registers|
  {
    seq(2 * |registers|, i requires 0 <= i < 2 * |registers| =>
      if i % 2 == 0 then High(registers[i / 2]) else Low(registers[i / 2]))
  }

  /** The first byte is the register's upper half. */
  predicate Halves(register: bv16, first: bv8, second: bv8) {
    register >> 8 == first as bv16 && register & 0x00FF == second as bv16
  }

  lemma RegisterHalves(first: bv8, second: bv8)
    ensures Halves(Register(first, second), first, second)
  {
  }

  lemma RegisterSplits(high: bv8, low: bv8)
    ensures High(Register(high, low)) == high
    ensures Low(Register(high, low)) == low
  {
  }

  lemma RegisterJoins(r: bv16)
    ensures Register(High(r), Low(r)) == r
  {
  }

  /** Packing loses nothing: both directions of the round trip. */
  lemma UnpackPack(block: seq<bv8>, count: nat)
    requires 2 * count <= |block|
    ensures Unpack(Pack(block, count)) == block[..2 * count]
  {
    forall i | 0 <= i < 2 * count ensures Unpack(Pack(block, count))[i] == block[i] {
      RegisterSplits(block[2 * (i / 2)], block[2 * (i / 2) + 1]);
      assert i == 2 * (i / 2) || i == 2 * (i / 2) + 1;
    }
  }

  lemma PackUnpack(registers: seq<bv16>)
    ensures Pack(Unpack(registers), |registers|) == registers
  {
    forall i | 0 <= i < |registers| ensures Pack(Unpack(registers), |registers|)[i] == registers[i] {
      RegisterJoins(registers[i]);
    }
  }

  method RegistersFromBytes(block: seq<bv8>, count: nat) returns (registers: array<bv16>)
    requires 2 * count <= |block|
    ensures fresh(registers) && registers[..] == Pack(block, count)
    ensures forall i :: 0 <= i < count ==> Halves(registers[i], block[2 * i], block[2 * i + 1])
  {
    registers := new bv16[count](_ => 0);
    for i := 0 to count
      invariant registers[..i] == Pack(block, count)[..i]
    {
      registers[i] := Register(block[2 * i], block[2 * i + 1]);
    }
    forall i | 0 <= i < count ensures Halves(registers[i], block[2 * i], block[2 * i + 1]) {
      RegisterHalves(block[2 * i], block[2 * i + 1]);
      assert registers[..][i] == Pack(block, count)[i];
    }
  }

  /** Overwrites the leading bytes of block with the registers and leaves its tail alone. */
  method BytesFromRegisters(registers: seq<bv16>, block: array<bv8>)
    requires 2 * |registers| <= block.Length
    modifies block
    ensures block[..] == Unpack(registers) + old(block[2 * |registers|..])
    ensures forall i :: 0 <= i < |registers| ==> Halves(registers[i], block[2 * i], block[2 * i + 1])
  {
    ghost var tail := block[2 * |registers|..];
    for i := 0 to |registers|
      invariant block[..2 * i] == Unpack(registers)[..2 * i]
      invariant block[2 * |registers|..] == tail
    {
      block[2 * i] := High(registers[i]);
      block[2 * i + 1] := Low(registers[i]);
      assert Unpack(registers)[..2 * (i + 1)] ==
        Unpack(registers)[..2 * i] + [High(registers[i]), Low(registers[i])];
    }
    assert block[..] == block[..2 * |registers|] + block[2 * |registers|..];
    forall i | 0 <= i < |registers| ensures Halves(registers[i], block[2 * i], block[2 * i + 1]) {
      RegisterJoins(registers[i]);
      RegisterHalves(High(registers[i]), Low(registers[i]));
      assert block[..][2 * i] == Unpack(registers)[2 * i] && block[..][2 * i + 1] == Unpack(registers)[2 * i + 1];
    }
  }
}
