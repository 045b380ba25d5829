/** The Modbus CRC-16 of the force/torque stream: register 0xFFFF, polynomial 0xA001, low bit first. */
module Crc16 {

  const POLYNOMIAL: bv16 := 0xA001
  const START: bv16 := 0xFFFF

  function Xor(a: bv16, b: bv16): bv16 { a ^ b }

  function And(a: bv16, b: bv16): bv16 { a & b }

  function Half(r: bv16): bv16 { r >> 1 }

  predicate Odd(r: bv16) { r & 1 != 0 }

  /** One bit leaves the register. */
  function Shift(r: bv16): bv16 {
    if Odd(r) then Xor(Half(r), POLYNOMIAL) else Half(r)
  }

  function Shifts(r: bv16, n: nat): bv16 {
    if n == 0 then r else Shift(Shifts(r, n - 1))
  }

  function Wide(byte: bv8): bv16 { byte as bv16 }

  /** One byte enters the register. */
  function Step(r: bv16, byte: bv8): bv16 {
    Shifts(Xor(r, Wide(byte)), 8)
  }

  /** The register after a message. */
  function Register(r: bv16, message: seq<bv8>): bv16 {
    if message == [] then r
    else Step(Register(r, message[..|message| - 1]), message[|message| - 1])
  }

  function Lsb(r: bv16): bv8 { (r & 0xFF) as bv8 }

  function Msb(r: bv16): bv8 { ((r >> 8) & 0xFF) as bv8 }

  /** The program's loops. The two bytes, in the order and with the bits in the order they are sent in, are
      the remainder of the message. */
  method Compute(data: seq<bv8>) returns (lsb: bv8, msb: bv8)
    ensures BitsOf(lsb) + BitsOf(msb) == Remainder(Dividend(Bits(data)))
    ensures lsb == Lsb(Register(START, data)) && msb == Msb(Register(START, data))
  {
    var crc := START;
    for i := 0 to |data|
      invariant crc == Register(START, data[..i])
    {
      ghost var before := crc;
      crc := crc ^ (data[i] as bv16);
      for n := 0 to 8
        invariant crc == Shifts(Xor(before, Wide(data[i])), n)
      {
        crc := if crc & 1 != 0 then (crc >> 1) ^ POLYNOMIAL else crc >> 1;
      }
      assert data[..i + 1][..i] == data[..i];
    }
    assert data[..|data|] == data;
    RegisterIsRemainder(data);
    lsb, msb := (crc & 0xFF) as bv8, ((crc >> 8) & 0xFF) as bv8;
  }

  /** A frame passes when its last two bytes are the CRC of the rest. */
  predicate Passes(frame: seq<bv8>)
    requires |frame| >= 2
  {
    var crc := Register(START, frame[..|frame| - 2]);
    frame[|frame| - 2] == Lsb(crc) && frame[|frame| - 1] == Msb(crc)
  }

  function Framed(payload: seq<bv8>): (frame: seq<bv8>)
    ensures |frame| == |payload| + 2
  {
    var crc := Register(START, payload);
    payload + [Lsb(crc), Msb(crc)]
  }

  // ------------------------------------------------------------- what the register keeps apart

  lemma XorCommutes(a: bv16, b: bv16)
    ensures Xor(a, b) == Xor(b, a)
  {
  }

  lemma XorAssociates(a: bv16, b: bv16, c: bv16)
    ensures Xor(Xor(a, b), c) == Xor(a, Xor(b, c))
  {
  }

  lemma XorUnits(a: bv16)
    ensures Xor(a, a) == 0 && Xor(a, 0) == a
  {
  }

  lemma XorGroup(a: bv16, b: bv16, c: bv16)
    ensures Xor(a, b) == Xor(b, a)
    ensures Xor(Xor(a, b), c) == Xor(a, Xor(b, c))
    ensures Xor(a, a) == 0 && Xor(a, 0) == a
  {
    hide *;
    XorCommutes(a, b);
    XorAssociates(a, b, c);
    XorUnits(a);
  }

  lemma XorZero(a: bv16, b: bv16)
    ensures Xor(a, b) == 0 <==> a == b
  {
    hide Xor;
    XorGroup(a, b, b);
    XorGroup(b, b, 0);
    XorGroup(b, 0, 0);
  }

  lemma XorCancels(a: bv16, b: bv16, c: bv16)
    ensures Xor(a, c) == Xor(b, c) <==> a == b
  {
    hide Xor;
    XorGroup(a, c, c);
    XorGroup(b, c, c);
    XorGroup(c, c, 0);
  }

  lemma HalfXor(a: bv16, b: bv16)
    ensures Half(Xor(a, b)) == Xor(Half(a), Half(b))
    ensures Odd(Xor(a, b)) <==> (Odd(a) != Odd(b))
  {
  }

  lemma ShiftLinear(a: bv16, b: bv16)
    ensures Shift(Xor(a, b)) == Xor(Shift(a), Shift(b))
  {
    HalfXor(a, b);
    hide Xor, Half, Odd;
    var x, y, p := Half(a), Half(b), POLYNOMIAL;
    XorGroup(x, p, y);
    XorGroup(x, y, p);
    XorGroup(p, y, p);
    XorGroup(y, p, p);
    XorGroup(x, p, Xor(y, p));
    XorGroup(p, p, y);
  }

  /** The polynomial's top bit tells which way a register was shifted. */
  lemma ShiftInjective(a: bv16)
    ensures Shift(a) == 0 <==> a == 0
  {
  }

  lemma {:induction false} ShiftsLinear(a: bv16, b: bv16, n: nat)
    ensures Shifts(Xor(a, b), n) == Xor(Shifts(a, n), Shifts(b, n))
  {
    hide Xor, Shift;
    if n > 0 {
      ShiftsLinear(a, b, n - 1);
      ShiftLinear(Shifts(a, n - 1), Shifts(b, n - 1));
    }
  }

  lemma {:induction false} ShiftsInjective(a: bv16, n: nat)
    ensures Shifts(a, n) == 0 <==> a == 0
  {
    hide Shift;
    if n > 0 {
      ShiftsInjective(a, n - 1);
      ShiftInjective(Shifts(a, n - 1));
    }
  }

  lemma SameShifts(a: bv16, b: bv16, n: nat)
    ensures Shifts(a, n) == Shifts(b, n) <==> a == b
  {
    hide *;
    ShiftsLinear(a, b, n);
    ShiftsInjective(Xor(a, b), n);
    XorZero(a, b);
    XorZero(Shifts(a, n), Shifts(b, n));
  }

  function High(byte: bv8): bv16 { (byte as bv16) << 8 }

  /** A register with a clear low byte only moves down. */
  lemma EightPlainShifts(byte: bv8)
    ensures Shifts(High(byte), 8) == Wide(byte)
  {
    var r := High(byte);
    var r1, r2, r3, r4 := Half(r), Half(Half(r)), Half(Half(Half(r))), Half(Half(Half(Half(r))));
    var r5, r6, r7, r8 := Half(r4), Half(Half(r4)), Half(Half(Half(r4))), Half(Half(Half(Half(r4))));
    LowBitsClear(byte);
    hide Half, Odd, High, Wide;
    assert Shifts(r, 1) == Shift(Shifts(r, 0)) == r1;
    assert Shifts(r, 2) == Shift(r1) == r2;
    assert Shifts(r, 3) == Shift(r2) == r3;
    assert Shifts(r, 4) == Shift(r3) == r4;
    assert Shifts(r, 5) == Shift(r4) == r5;
    assert Shifts(r, 6) == Shift(r5) == r6;
    assert Shifts(r, 7) == Shift(r6) == r7;
    assert Shifts(r, 8) == Shift(r7) == r8;
  }

  lemma LowBitsClear(byte: bv8)
    ensures
      var r := High(byte);
      var s := Half(Half(Half(Half(r))));
      && !Odd(r) && !Odd(Half(r)) && !Odd(Half(Half(r))) && !Odd(Half(Half(Half(r))))
      && !Odd(s) && !Odd(Half(s)) && !Odd(Half(Half(s))) && !Odd(Half(Half(Half(s))))
      && Half(Half(Half(Half(s)))) == Wide(byte)
  {
  }

  lemma ByteParts(r: bv16, a: bv8, b: bv8)
    ensures Xor(r, Wide(a)) == High(b) <==> a == Lsb(r) && b == Msb(r)
  {
  }

  /** Two bytes drive the register to zero exactly when they are its own low and high byte. */
  lemma OnlyOwnBytesClear(r: bv16, a: bv8, b: bv8)
    ensures Step(Step(r, a), b) == 0 <==> a == Lsb(r) && b == Msb(r)
  {
    hide Shifts, Xor, Wide, High, Lsb, Msb;
    var middle := Step(r, a);
    ShiftsInjective(Xor(middle, Wide(b)), 8);
    XorZero(middle, Wide(b));
    EightPlainShifts(b);
    SameShifts(Xor(r, Wide(a)), High(b), 8);
    ByteParts(r, a, b);
  }

  lemma RegisterOfTwoMore(r: bv16, message: seq<bv8>, a: bv8, b: bv8)
    ensures Register(r, message + [a, b]) == Step(Step(Register(r, message), a), b)
  {
    hide Step;
    var longer := message + [a, b];
    assert longer[..|longer| - 1] == message + [a];
    assert (message + [a])[..|message|] == message;
  }

  /** A frame of any length passes exactly when the register runs to zero over all of it: a payload
      followed by its own CRC does, and no other two trailing bytes do. */
  lemma PassesMeansZero(frame: seq<bv8>)
    requires |frame| >= 2
    ensures Passes(frame) <==> Register(START, frame) == 0
  {
    hide Step, Register, Lsb, Msb;
    var n := |frame| - 2;
    var a, b := frame[n], frame[n + 1];
    assert frame == frame[..n] + [a, b];
    RegisterOfTwoMore(START, frame[..n], a, b);
    OnlyOwnBytesClear(Register(START, frame[..n]), a, b);
  }

  lemma FramedPasses(payload: seq<bv8>)
    ensures Passes(Framed(payload)) && Register(START, Framed(payload)) == 0
  {
    hide Register;
    assert Framed(payload)[..|payload|] == payload;
    PassesMeansZero(Framed(payload));
  }

  /** The same bytes keep different registers different. */
  lemma {:induction false} SameTail(r: bv16, s: bv16, tail: seq<bv8>)
    ensures Register(r, tail) == Register(s, tail) <==> r == s
  {
    hide Shifts, Xor, Wide;
    if tail != [] {
      var n := |tail| - 1;
      SameTail(r, s, tail[..n]);
      var a, b := Register(r, tail[..n]), Register(s, tail[..n]);
      SameShifts(Xor(a, Wide(tail[n])), Xor(b, Wide(tail[n])), 8);
      XorCancels(a, b, Wide(tail[n]));
    }
  }

  lemma {:induction false} RegisterAppends(r: bv16, head: seq<bv8>, tail: seq<bv8>)
    ensures Register(r, head + tail) == Register(Register(r, head), tail)
  {
    hide Step;
    if tail == [] {
      assert head + tail == head;
    } else {
      var n := |tail| - 1;
      RegisterAppends(r, head, tail[..n]);
      assert (head + tail)[..|head + tail| - 1] == head + tail[..n];
    }
  }

  lemma WideXor(a: bv8, b: bv8)
    ensures Xor(Wide(a), Wide(b)) == Wide(a ^ b)
    ensures a ^ b == 0 <==> a == b
  {
    assert (a ^ b) ^ b == a;
  }

  /** Moving terms across an equation of exclusive ors. */
  lemma XorMoves(x: bv16, y: bv16, a: bv16, b: bv16)
    ensures Xor(x, a) == Xor(y, b) <==> Xor(x, y) == Xor(a, b)
    ensures Xor(Xor(x, a), Xor(x, b)) == Xor(a, b)
  {
    hide Xor;
    XorZero(Xor(x, a), Xor(y, b));
    XorZero(Xor(x, y), Xor(a, b));
    XorSwaps(x, a, y, b);
    XorSwaps(x, a, x, b);
    XorGroup(x, Xor(a, b), 0);
    XorGroup(Xor(a, b), 0, 0);
  }

  lemma XorSwaps(x: bv16, a: bv16, y: bv16, b: bv16)
    ensures Xor(Xor(x, a), Xor(y, b)) == Xor(Xor(x, y), Xor(a, b))
  {
    hide Xor;
    XorGroup(x, a, Xor(y, b));
    XorGroup(a, y, b);
    XorGroup(y, a, b);
    XorGroup(x, y, Xor(a, b));
  }

  lemma HighIsNotWide(low: bv8, high: bv8)
    ensures Wide(low) == High(high) <==> low == 0 && high == 0
  {
  }

  /** Two adjacent bytes: from one register, different pairs lead to different registers. */
  lemma PairsStayApart(r: bv16, a0: bv8, a1: bv8, b0: bv8, b1: bv8)
    ensures Step(Step(r, a0), a1) == Step(Step(r, b0), b1) <==> a0 == b0 && a1 == b1
  {
    hide Shifts, Xor, Wide, High;
    var p, q, d0, d1 := Xor(r, Wide(a0)), Xor(r, Wide(b0)), a0 ^ b0, a1 ^ b1;
    WideXor(a0, b0);
    WideXor(a1, b1);
    XorMoves(r, r, Wide(a0), Wide(b0));
    XorMoves(Step(r, a0), Step(r, b0), Wide(a1), Wide(b1));
    SameShifts(Xor(Step(r, a0), Wide(a1)), Xor(Step(r, b0), Wide(b1)), 8);
    ShiftsLinear(p, q, 8);
    EightPlainShifts(d1);
    SameShifts(Xor(p, q), High(d1), 8);
    HighIsNotWide(d0, d1);
  }

  /** Two frames of equal length that differ only within two adjacent bytes, anywhere including
      across the boundary between payload and CRC, cannot both pass. */
  lemma AdjacentDamageIsCaught(head: seq<bv8>, a0: bv8, a1: bv8, b0: bv8, b1: bv8, tail: seq<bv8>)
    requires a0 != b0 || a1 != b1
    ensures !(Passes(head + [a0, a1] + tail) && Passes(head + [b0, b1] + tail))
  {
    hide Register, Step, Passes;
    PassesMeansZero(head + [a0, a1] + tail);
    PassesMeansZero(head + [b0, b1] + tail);
    RegisterAppends(START, head + [a0, a1], tail);
    RegisterAppends(START, head + [b0, b1], tail);
    SameTail(Register(START, head + [a0, a1]), Register(START, head + [b0, b1]), tail);
    RegisterOfTwoMore(START, head, a0, a1);
    RegisterOfTwoMore(START, head, b0, b1);
    PairsStayApart(Register(START, head), a0, a1, b0, b1);
  }

  // ------------------------------------------------------------- bursts of bits

  /** The register takes a message bit by bit, the lowest bit of a byte first. */
  function Run(r: bv16, bits: seq<bool>): bv16 {
    if bits == [] then r
    else
      var n := |bits| - 1;
      Shift(Xor(Run(r, bits[..n]), Bit(0, bits[n])))
  }

  /** The bit that stands i places up. */
  function Place(i: nat): bv16
    requires i < 16
  {
    match i
    case 0 => 0x0001 case 1 => 0x0002 case 2 => 0x0004 case 3 => 0x0008
    case 4 => 0x0010 case 5 => 0x0020 case 6 => 0x0040 case 7 => 0x0080
    case 8 => 0x0100 case 9 => 0x0200 case 10 => 0x0400 case 11 => 0x0800
    case 12 => 0x1000 case 13 => 0x2000 case 14 => 0x4000 case 15 => 0x8000
  }

  function Bit(i: nat, on: bool): bv16
    requires i < 16
  {
    if on then Place(i) else 0
  }

  /** At most sixteen bits as a number, the first one lowest. */
  function Value(bits: seq<bool>): bv16
    requires |bits| <= 16
  {
    if bits == [] then 0
    else
      var n := |bits| - 1;
      Xor(Value(bits[..n]), Bit(n, bits[n]))
  }

  lemma {:induction false} ShiftsInner(r: bv16, n: nat)
    requires n > 0
    ensures Shifts(r, n) == Shifts(Shift(r), n - 1)
  {
    hide Shift;
    if n > 1 {
      ShiftsInner(r, n - 1);
    }
  }

  lemma BitMovesDown(i: nat, on: bool)
    requires 0 < i < 16
    ensures Shift(Bit(i, on)) == Bit(i - 1, on)
  {
  }

  lemma {:induction false} BitArrives(i: nat, on: bool)
    requires i < 16
    ensures Shifts(Bit(i, on), i) == Bit(0, on)
  {
    hide Bit, Shift;
    if i > 0 {
      ShiftsInner(Bit(i, on), i);
      BitMovesDown(i, on);
      BitArrives(i - 1, on);
    }
  }

  /** Bits entering one by one, or all at once before the shifts. */
  lemma {:induction false} RunIsShifts(r: bv16, bits: seq<bool>)
    requires |bits| <= 16
    ensures Run(r, bits) == Shifts(Xor(r, Value(bits)), |bits|)
    decreases |bits|
  {
    hide Xor, Bit, Shift;
    if bits == [] {
      XorUnits(r);
    } else {
      var n := |bits| - 1;
      var b := Bit(n, bits[n]);
      RunIsShifts(r, bits[..n]);
      XorAssociates(r, Value(bits[..n]), b);
      ShiftsLinear(Xor(r, Value(bits[..n])), b, n);
      BitArrives(n, bits[n]);
    }
  }

  // Numbers with no bit at place n or above.
  function Mask(n: nat): bv16
    requires n <= 16
  {
    match n
    case 0 => 0xFFFF case 1 => 0xFFFE case 2 => 0xFFFC case 3 => 0xFFF8
    case 4 => 0xFFF0 case 5 => 0xFFE0 case 6 => 0xFFC0 case 7 => 0xFF80
    case 8 => 0xFF00 case 9 => 0xFE00 case 10 => 0xFC00 case 11 => 0xF800
    case 12 => 0xF000 case 13 => 0xE000 case 14 => 0xC000 case 15 => 0x8000
    case 16 => 0x0000
  }

  predicate Below(x: bv16, n: nat)
    requires n <= 16
  {
    x & Mask(n) == 0
  }

  lemma BitOnTop(x: bv16, n: nat, on: bool)
    requires n < 16 && Below(x, n)
    ensures Below(Xor(x, Bit(n, on)), n + 1)
  {
  }

  lemma TopBitComesOff(x: bv16, y: bv16, n: nat, a: bool, b: bool)
    requires n < 16 && Below(x, n) && Below(y, n)
    requires Xor(x, Bit(n, a)) == Xor(y, Bit(n, b))
    ensures x == y && a == b
  {
    hide *;
    BitShows(x, n, a);
    BitShows(y, n, b);
    XorCancels(x, y, Bit(n, a));
  }

  predicate HasPlace(x: bv16, n: nat)
    requires n < 16
  {
    And(x, Place(n)) != 0
  }

  lemma BitShows(x: bv16, n: nat, on: bool)
    requires n < 16 && Below(x, n)
    ensures HasPlace(Xor(x, Bit(n, on)), n) <==> on
  {
  }

  lemma {:induction false} ValueIsBelow(bits: seq<bool>)
    requires |bits| <= 16
    ensures Below(Value(bits), |bits|)
    decreases |bits|
  {
    hide Xor, Bit, Below;
    if bits == [] {
      NothingIsBelow();
    } else {
      var n := |bits| - 1;
      ValueIsBelow(bits[..n]);
      BitOnTop(Value(bits[..n]), n, bits[n]);
    }
  }

  lemma NothingIsBelow()
    ensures Below(0, 0)
  {
  }

  lemma {:induction false} ValueInjective(u: seq<bool>, v: seq<bool>)
    requires |u| == |v| <= 16 && Value(u) == Value(v)
    ensures u == v
    decreases |u|
  {
    hide Xor, Bit, Below;
    if u != [] {
      var n := |u| - 1;
      ValueIsBelow(u[..n]);
      ValueIsBelow(v[..n]);
      TopBitComesOff(Value(u[..n]), Value(v[..n]), n, u[n], v[n]);
      ValueInjective(u[..n], v[..n]);
      assert u == u[..n] + [u[n]] && v == v[..n] + [v[n]];
    }
  }

  /** From one register, different strings of at most sixteen bits lead to different registers. */
  lemma BurstsStayApart(r: bv16, u: seq<bool>, v: seq<bool>)
    requires |u| == |v| <= 16
    ensures Run(r, u) == Run(r, v) <==> u == v
  {
    hide Xor, Shifts, Run, Value;
    if Run(r, u) == Run(r, v) {
      RunIsShifts(r, u);
      RunIsShifts(r, v);
      SameShifts(Xor(r, Value(u)), Xor(r, Value(v)), |u|);
      XorCommutes(r, Value(u));
      XorCommutes(r, Value(v));
      XorCancels(Value(u), Value(v), r);
      ValueInjective(u, v);
    }
  }

  /** The bits of a byte as they enter the register. */
  function BitsOf(byte: bv8): (bits: seq<bool>)
    ensures |bits| == 8
  {
    [byte & 0x01 != 0, byte & 0x02 != 0, byte & 0x04 != 0, byte & 0x08 != 0,
     byte & 0x10 != 0, byte & 0x20 != 0, byte & 0x40 != 0, byte & 0x80 != 0]
  }

  function Bits(message: seq<bv8>): (bits: seq<bool>)
    ensures |bits| == 8 * |message|
  {
    if message == [] then []
    else Bits(message[..|message| - 1]) + BitsOf(message[|message| - 1])
  }

  lemma ValueStep(b: seq<bool>, n: nat)
    requires 0 < n <= |b| <= 16
    ensures Value(b[..n]) == Xor(Value(b[..n - 1]), Bit(n - 1, b[n - 1]))
    ensures Value(b[..0]) == 0
  {
    hide Bit, Xor;
    assert b[..n][..n - 1] == b[..n - 1];
  }

  lemma ValueOfEight(b: seq<bool>)
    requires |b| == 8
    ensures Value(b)
         == Xor(Xor(Xor(Xor(Xor(Xor(Xor(Xor(0, Bit(0, b[0])), Bit(1, b[1])), Bit(2, b[2])), Bit(3, b[3])),
                            Bit(4, b[4])), Bit(5, b[5])), Bit(6, b[6])), Bit(7, b[7]))
  {
    hide Bit, Xor, Value;
    ValueStep(b, 1); ValueStep(b, 2); ValueStep(b, 3); ValueStep(b, 4);
    ValueStep(b, 5); ValueStep(b, 6); ValueStep(b, 7); ValueStep(b, 8);
    assert b[..8] == b;
  }

  lemma ByteIsItsBits(byte: bv8)
    ensures Value(BitsOf(byte)) == Wide(byte)
  {
    ValueOfEight(BitsOf(byte));
    hide Value;
  }

  lemma {:induction false} BitsInjective(f: seq<bv8>, g: seq<bv8>)
    requires |f| == |g| && Bits(f) == Bits(g)
    ensures f == g
    decreases |f|
  {
    if f != [] {
      var n := |f| - 1;
      hide BitsOf;
      var x, y := Bits(f[..n]), Bits(g[..n]);
      assert x == Bits(f)[..8 * n] == Bits(g)[..8 * n] == y;
      assert BitsOf(f[n]) == Bits(f)[8 * n..] == Bits(g)[8 * n..] == BitsOf(g[n]);
      ByteIsItsBits(f[n]);
      ByteIsItsBits(g[n]);
      SameWide(f[n], g[n]);
      BitsInjective(f[..n], g[..n]);
      assert f == f[..n] + [f[n]] && g == g[..n] + [g[n]];
    }
  }

  lemma SameWide(a: bv8, b: bv8)
    ensures Wide(a) == Wide(b) <==> a == b
  {
  }

  lemma {:induction false} RunAppends(r: bv16, head: seq<bool>, tail: seq<bool>)
    ensures Run(r, head + tail) == Run(Run(r, head), tail)
    decreases |tail|
  {
    hide Shift, Xor, Bit;
    if tail == [] {
      assert head + tail == head;
    } else {
      var n := |tail| - 1;
      RunAppends(r, head, tail[..n]);
      assert (head + tail)[..|head + tail| - 1] == head + tail[..n];
    }
  }

  /** The program's register, byte by byte, is that of the bits. */
  lemma {:induction false} RegisterIsRun(r: bv16, message: seq<bv8>)
    ensures Register(r, message) == Run(r, Bits(message))
    decreases |message|
  {
    hide Run, BitsOf, Shifts, Xor, Wide;
    if message == [] {
      RunOfNone(r);
    } else {
      var n := |message| - 1;
      RegisterIsRun(r, message[..n]);
      RunAppends(r, Bits(message[..n]), BitsOf(message[n]));
      RunIsShifts(Register(r, message[..n]), BitsOf(message[n]));
      ByteIsItsBits(message[n]);
    }
  }

  lemma RunOfNone(r: bv16)
    ensures Run(r, []) == r
  {
  }

  lemma {:induction false} SameTailOfBits(r: bv16, s: bv16, tail: seq<bool>)
    ensures Run(r, tail) == Run(s, tail) <==> r == s
    decreases |tail|
  {
    hide Xor, Bit, Shift;
    if tail != [] {
      var n := |tail| - 1;
      var b := Bit(0, tail[n]);
      SameTailOfBits(r, s, tail[..n]);
      var x, y := Run(r, tail[..n]), Run(s, tail[..n]);
      SameShift(Xor(x, b), Xor(y, b));
      XorCancels(x, y, b);
    }
  }

  lemma SameShift(a: bv16, b: bv16)
    ensures Shift(a) == Shift(b) <==> a == b
  {
    SameShifts(a, b, 1);
    hide Shift;
    assert Shifts(a, 1) == Shift(Shifts(a, 0)) && Shifts(b, 1) == Shift(Shifts(b, 0));
  }

  /** Two frames of equal length that differ only within a burst of sixteen bits, wherever it begins and
      whatever bytes it spans, cannot both pass. */
  lemma BurstIsCaught(f: seq<bv8>, g: seq<bv8>, first: nat, past: nat)
    requires |f| == |g| >= 2 && f != g
    requires first <= past <= 8 * |f| && past - first <= 16
    requires Bits(f)[..first] == Bits(g)[..first] && Bits(f)[past..] == Bits(g)[past..]
    ensures !(Passes(f) && Passes(g))
  {
    hide Register, Run, Passes, Bits;
    PassesMeansZero(f);
    PassesMeansZero(g);
    RegisterIsRun(START, f);
    RegisterIsRun(START, g);
    RunInThree(START, Bits(f), first, past);
    RunInThree(START, Bits(g), first, past);
    var r := Run(START, Bits(f)[..first]);
    var u, v := Bits(f)[first..past], Bits(g)[first..past];
    SameTailOfBits(Run(r, u), Run(r, v), Bits(f)[past..]);
    BurstsStayApart(r, u, v);
    if u == v {
      InThree(Bits(f), first, past);
      InThree(Bits(g), first, past);
      BitsInjective(f, g);
    }
  }

  lemma InThree(bits: seq<bool>, first: nat, past: nat)
    requires first <= past <= |bits|
    ensures bits == bits[..first] + bits[first..past] + bits[past..]
  {
  }

  lemma RunInThree(r: bv16, bits: seq<bool>, first: nat, past: nat)
    requires first <= past <= |bits|
    ensures Run(r, bits) == Run(Run(Run(r, bits[..first]), bits[first..past]), bits[past..])
  {
    hide Run;
    InThree(bits, first, past);
    RunAppends(r, bits[..first] + bits[first..past], bits[past..]);
    RunAppends(r, bits[..first], bits[first..past]);
  }

  // ------------------------------------------------------------- the remainder of a division

  /** Bits as a polynomial, the highest power first: x^16 + x^15 + x^2 + 1. */
  const GENERATOR: seq<bool> :=
    [true, true, false, false, false, false, false, false, false,
     false, false, false, false, false, true, false, true]

  const ZEROS: seq<bool> :=
    [false, false, false, false, false, false, false, false,
     false, false, false, false, false, false, false, false]

  /** The sum, which is the difference too, of two polynomials with coefficients modulo two. */
  function Plus(a: seq<bool>, b: seq<bool>): (sum: seq<bool>)
    requires |a| == |b|
    ensures |sum| == |a|
  {
    seq(|a|, i requires 0 <= i < |a| => a[i] != b[i])
  }

  /** Long division by the generator: it is taken away wherever the leading coefficient is one. */
  function Remainder(d: seq<bool>): (r: seq<bool>)
    requires |d| >= 16
    ensures |r| == 16
    decreases |d|
  {
    if |d| == 16 then d
    else if d[0] then Remainder(Plus(d[..17], GENERATOR)[1..] + d[17..])
    else Remainder(d[1..])
  }

  /** The message times x^16, its first sixteen coefficients inverted. */
  function Dividend(bits: seq<bool>): (d: seq<bool>)
    ensures |d| == |bits| + 16
  {
    var d := bits + ZEROS;
    seq(|d|, i requires 0 <= i < |d| => if i < 16 then !d[i] else d[i])
  }

  /** The same for a register that holds any bits before the message, not all ones. */
  function Entering(w: seq<bool>, bits: seq<bool>): (d: seq<bool>)
    requires |w| == 16
    ensures |d| == |bits| + 16
  {
    var d := bits + ZEROS;
    seq(|d|, i requires 0 <= i < |d| => if i < 16 then d[i] != w[i] else d[i])
  }

  /** The register's bits, the lowest first: it is kept with the highest power of the remainder lowest. */
  function WordBits(r: bv16): (w: seq<bool>)
    ensures |w| == 16
  {
    BitsOf(Lsb(r)) + BitsOf(Msb(r))
  }

  lemma LowBits(r: bv16, i: nat)
    requires i < 8
    ensures BitsOf(Lsb(r))[i] <==> HasPlace(r, i)
  {
  }

  lemma HighBits(r: bv16, i: nat)
    requires i < 8
    ensures BitsOf(Msb(r))[i] <==> HasPlace(r, i + 8)
  {
  }

  lemma WordBitsAre(r: bv16)
    ensures forall i :: 0 <= i < 16 ==> (WordBits(r)[i] <==> HasPlace(r, i))
  {
    forall i | 0 <= i < 16 ensures WordBits(r)[i] <==> HasPlace(r, i) {
      if i < 8 {
        LowBits(r, i);
      } else {
        HighBits(r, i - 8);
      }
    }
  }

  lemma XorAt(x: bv16, y: bv16, i: nat)
    requires i < 16
    ensures HasPlace(Xor(x, y), i) <==> (HasPlace(x, i) != HasPlace(y, i))
  {
    hide And, Place, Xor;
    MaskedXor(x, y, Place(i));
    OnePlace(x, i);
    OnePlace(y, i);
    XorZero(And(x, Place(i)), And(y, Place(i)));
  }

  lemma MaskedXor(x: bv16, y: bv16, mask: bv16)
    ensures And(Xor(x, y), mask) == Xor(And(x, mask), And(y, mask))
  {
  }

  lemma OnePlace(x: bv16, i: nat)
    requires i < 16
    ensures Place(i) != 0 && (And(x, Place(i)) == 0 || And(x, Place(i)) == Place(i))
  {
  }

  lemma HalfAt(x: bv16, i: nat)
    requires i < 16
    ensures HasPlace(Half(x), i) <==> (i < 15 && HasPlace(x, i + 1))
  {
    if i < 15 {
      OnePlace(x, i + 1);
      HalfPlace(i);
      HalfMasked(x, Place(i + 1));
      hide And, Half, Place;
    } else {
      HalfOnTop(x);
      hide And, Half;
    }
  }

  lemma HalfPlace(i: nat)
    requires i < 15
    ensures Half(Place(i + 1)) == Place(i) && Place(i) != 0 && Half(0) == 0
  {
  }

  lemma HalfMasked(x: bv16, mask: bv16)
    ensures And(Half(x), Half(mask)) == Half(And(x, mask))
  {
  }

  lemma HalfOnTop(x: bv16)
    ensures And(Half(x), 0x8000) == 0
  {
  }

  lemma LowestAt(x: bv16, on: bool, i: nat)
    requires i < 16
    ensures HasPlace(Bit(0, on), i) <==> (i == 0 && on)
    ensures HasPlace(x, 0) <==> Odd(x)
  {
  }

  /** The program's constant holds the generator's lower coefficients. */
  lemma PolynomialAt(i: nat)
    requires i < 16
    ensures HasPlace(POLYNOMIAL, i) <==> GENERATOR[i + 1]
  {
  }

  /** One step of the register, bit by bit: all of them one place on, and the generator taken away. */
  lemma ShiftedBit(r: bv16, on: bool, i: nat)
    requires i < 16
    ensures HasPlace(Shift(Xor(r, Bit(0, on))), i)
      <==> ((i < 15 && HasPlace(r, i + 1)) != ((HasPlace(r, 0) != on) && GENERATOR[i + 1]))
  {
    hide Xor, Half, Bit, HasPlace, Odd;
    var x := Xor(r, Bit(0, on));
    LowestAt(x, on, 0);
    XorAt(r, Bit(0, on), 0);
    HalfAt(x, i);
    if i < 15 {
      LowestAt(x, on, i + 1);
      XorAt(r, Bit(0, on), i + 1);
    }
    XorAt(Half(x), POLYNOMIAL, i);
    PolynomialAt(i);
  }

  /** What is left to divide after one coefficient. */
  function Divided(d: seq<bool>): (rest: seq<bool>)
    requires |d| > 16
    ensures |rest| == |d| - 1
    ensures Remainder(d) == Remainder(rest)
  {
    if d[0] then Plus(d[..17], GENERATOR)[1..] + d[17..] else d[1..]
  }

  lemma DividedAt(d: seq<bool>, i: nat)
    requires i < |d| - 1 && |d| > 16
    ensures Divided(d)[i] == (d[i + 1] != (d[0] && i < 16 && GENERATOR[i + 1]))
  {
  }

  lemma Divides(w: seq<bool>, bits: seq<bool>, next: seq<bool>)
    requires |w| == |next| == 16 && bits != []
    requires forall i | 0 <= i < 16 ::
      next[i] == ((i < 15 && w[i + 1]) != ((w[0] != bits[0]) && GENERATOR[i + 1]))
    ensures Divided(Entering(w, bits)) == Entering(next, bits[1..])
  {
    var d := Entering(w, bits);
    var e := Entering(next, bits[1..]);
    forall i | 0 <= i < |bits| + 15 ensures Divided(d)[i] == e[i] {
      hide Divided;
      DividedAt(d, i);
    }
  }

  lemma BitEnters(r: bv16, bits: seq<bool>)
    requires bits != []
    ensures Divided(Entering(WordBits(r), bits)) == Entering(WordBits(Shift(Xor(r, Bit(0, bits[0])))), bits[1..])
  {
    hide WordBits, HasPlace, Shift, Xor, Bit, Divided, Entering;
    var next := Shift(Xor(r, Bit(0, bits[0])));
    WordBitsAre(r);
    WordBitsAre(next);
    forall i | 0 <= i < 16
      ensures WordBits(next)[i]
           == ((i < 15 && WordBits(r)[i + 1]) != ((WordBits(r)[0] != bits[0]) && GENERATOR[i + 1]))
    {
      ShiftedBit(r, bits[0], i);
    }
    Divides(WordBits(r), bits, WordBits(next));
  }

  /** The register divides: whatever it held, it ends with the remainder of what entered it. */
  lemma {:induction false} RunDivides(r: bv16, bits: seq<bool>)
    ensures WordBits(Run(r, bits)) == Remainder(Entering(WordBits(r), bits))
    decreases |bits|
  {
    hide WordBits, Run, Shift, Xor, Bit, Remainder, Divided, Entering;
    if bits == [] {
      RunOfNone(r);
      NothingEnters(WordBits(r));
    } else {
      var next := Shift(Xor(r, Bit(0, bits[0])));
      BitEnters(r, bits);
      RunDivides(next, bits[1..]);
      RunAppends(r, [bits[0]], bits[1..]);
      RunOfOne(r, bits[0]);
      assert [bits[0]] + bits[1..] == bits;
    }
  }

  lemma NothingEnters(w: seq<bool>)
    requires |w| == 16
    ensures Remainder(Entering(w, [])) == w
  {
    assert Entering(w, []) == w;
  }

  lemma RunOfOne(r: bv16, on: bool)
    ensures Run(r, [on]) == Shift(Xor(r, Bit(0, on)))
  {
    hide Shift, Xor, Bit;
    assert [on][..0] == [];
  }

  /** What the program computes: the remainder of the message times x^16, inverted in front, by the generator. */
  lemma RegisterIsRemainder(message: seq<bv8>)
    ensures WordBits(Register(START, message)) == Remainder(Dividend(Bits(message)))
  {
    RegisterIsRun(START, message);
    RunDivides(START, Bits(message));
    hide Register, Run, Remainder, Bits;
    assert WordBits(START) == seq(16, i => true);
    assert Entering(WordBits(START), Bits(message)) == Dividend(Bits(message));
  }

  lemma DigitsEnter()
    ensures Step(0xFFFF, 0x31) == 0x947E && Step(0x947E, 0x32) == 0xF595 && Step(0xF595, 0x33) == 0x7A75
    ensures Step(0x7A75, 0x34) == 0x30BA && Step(0x30BA, 0x35) == 0xA471 && Step(0xA471, 0x36) == 0x32E4
    ensures Step(0x32E4, 0x37) == 0x9D73 && Step(0x9D73, 0x38) == 0x37DD && Step(0x37DD, 0x39) == 0x4B37
  {
  }

  lemma OneMore(r: bv16, message: seq<bv8>, n: nat)
    requires n < |message|
    ensures Register(r, message[..n + 1]) == Step(Register(r, message[..n]), message[n])
  {
    hide Step;
    assert message[..n + 1][..n] == message[..n];
  }

  /** The check value the CRC is known by, of the nine digits from "1" to "9". */
  lemma CheckValue()
    ensures Register(START, [0x31, 0x32, 0x33, 0x34, 0x35, 0x36, 0x37, 0x38, 0x39]) == 0x4B37
  {
    var digits: seq<bv8> := [0x31, 0x32, 0x33, 0x34, 0x35, 0x36, 0x37, 0x38, 0x39];
    DigitsEnter();
    hide Step, Register;
    RegisterOfNone(START);
    assert digits[..0] == [] && digits[..9] == digits;
    OneMore(START, digits, 0); OneMore(START, digits, 1); OneMore(START, digits, 2);
    OneMore(START, digits, 3); OneMore(START, digits, 4); OneMore(START, digits, 5);
    OneMore(START, digits, 6); OneMore(START, digits, 7); OneMore(START, digits, 8);
  }

  lemma RegisterOfNone(r: bv16)
    ensures Register(r, []) == r
  {
  }
}
