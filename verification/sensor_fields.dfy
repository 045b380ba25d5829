/** The fields inside a tactile sensor packet: records of a type byte and big-endian numbers, parsed by
    the C++ reader into the buffers of its finger structures and by the Python reader into lists. */
module SensorFields {

  import opened Bytes
  import opened UsbFraming

  const FINGER_COUNT := 2
  const STATIC_TACTILE_COUNT := 28
  const IMU_SIZE := 3

  datatype Kind =
    | StaticTactile | DynamicTactile | Accelerometer | Gyroscope
    | Magnetometer | Temperature | Timestamp | Unknown

  /** The high nibble of a type byte. */
  function KindOf(b: Byte): Kind {
    match b / 16
    case 1 => StaticTactile
    case 2 => DynamicTactile
    case 3 => Accelerometer
    case 4 => Gyroscope
    case 5 => Magnetometer
    case 6 => Temperature
    case 7 => Timestamp
    case _ => Unknown
  }

  /** The two bits below it. */
  function FingerOf(b: Byte): (f: nat)
    ensures f < 4
  {
    b / 4 % 4
  }

  function Count(k: Kind): nat {
    match k
    case StaticTactile => STATIC_TACTILE_COUNT
    case Accelerometer | Gyroscope | Magnetometer => IMU_SIZE
    case DynamicTactile | Temperature | Timestamp => 1
    case Unknown => 0
  }

  function Width(k: Kind): nat {
    if k == Timestamp then 8 else 2
  }

  /** What a finger holds. The C++ structure has no magnetometer: it stays empty there. */
  datatype Finger = Finger(
    newDataAvailable: bool,
    staticTactile: seq<int>, dynamicTactile: seq<int>, accelerometer: seq<int>, gyroscope: seq<int>,
    magnetometer: seq<int>, temperature: seq<int>, timestamp: seq<int>)
  {
    function Get(k: Kind): seq<int> {
      match k
      case StaticTactile => staticTactile
      case DynamicTactile => dynamicTactile
      case Accelerometer => accelerometer
      case Gyroscope => gyroscope
      case Magnetometer => magnetometer
      case Temperature => temperature
      case Timestamp => timestamp
      case Unknown => []
    }

    function With(k: Kind, values: seq<int>): (f: Finger)
      ensures forall j | j != k :: f.Get(j) == Get(j)
      ensures k != Unknown ==> f.Get(k) == values
      ensures f.newDataAvailable == newDataAvailable
    {
      match k
      case StaticTactile => this.(staticTactile := values)
      case DynamicTactile => this.(dynamicTactile := values)
      case Accelerometer => this.(accelerometer := values)
      case Gyroscope => this.(gyroscope := values)
      case Magnetometer => this.(magnetometer := values)
      case Temperature => this.(temperature := values)
      case Timestamp => this.(timestamp := values)
      case Unknown => this
    }

    function Flagged(): Finger { this.(newDataAvailable := true) }

    /** Every buffer the C++ structure has is as long as it was declared. */
    ghost predicate Sized() {
      forall k | k != Magnetometer :: |Get(k)| == Count(k)
    }
  }

  // ------------------------------------------------------------- numbers

  function FromBytes(b: seq<Byte>): nat {
    if b == [] then 0 else FromBytes(b[..|b| - 1]) * 256 + b[|b| - 1]
  }

  /** The bytes that n numbers take. */
  function Span(width: nat, n: nat): nat {
    if width == 2 then 2 * n else 8 * n
  }

  /** The numbers at the start of some data: at most count, and only complete ones. */
  function Numbers(data: seq<Byte>, width: nat, count: nat): (ns: seq<nat>)
    requires width == 2 || width == 8
    ensures |ns| <= count && Span(width, |ns|) <= |data|
    ensures |ns| == count || |data| < Span(width, |ns| + 1)
  {
    if count == 0 || |data| < width then []
    else [FromBytes(data[..width])] + Numbers(data[width..], width, count - 1)
  }

  function Signed(n: int): int {
    if n >= 0x8000 then n - 0x1_0000 else n
  }

  function SignedAll(ns: seq<int>): (vs: seq<int>)
    ensures |vs| == |ns|
  {
    seq(|ns|, i requires 0 <= i < |ns| => Signed(ns[i]))
  }

  /** The values of a record of kind k whose payload starts here. */
  function Read(k: Kind, data: seq<Byte>): (vs: seq<int>)
    ensures |vs| <= Count(k) && Span(Width(k), |vs|) <= |data|
    ensures |vs| == Count(k) || |data| < Span(Width(k), |vs| + 1)
  {
    var ns := Numbers(data, Width(k), Count(k));
    if k == StaticTactile || k == Timestamp then ns else SignedAll(ns)
  }

  lemma PairValue(b: seq<Byte>)
    requires |b| == 2
    ensures FromBytes(b) == Join(b[0], b[1])
  {
    assert b[..1] == [b[0]];
    assert FromBytes([b[0]]) == b[0] by { assert [b[0]][..0] == []; }
  }

  lemma {:induction false} NumberAt(data: seq<Byte>, width: nat, count: nat, k: nat)
    requires width == 2 || width == 8
    requires k < |Numbers(data, width, count)|
    ensures Span(width, k) + width <= |data|
    ensures Numbers(data, width, count)[k] == FromBytes(data[Span(width, k)..Span(width, k) + width])
  {
    hide FromBytes;
    if k == 0 {
      assert data[..width] == data[0..width];
    } else {
      NumberAt(data[width..], width, count - 1, k - 1);
      SliceOfRest(data, width, Span(width, k - 1), Span(width, k - 1) + width);
    }
  }

  lemma SliceOfRest(data: seq<Byte>, n: nat, lo: nat, hi: nat)
    requires lo <= hi && n + hi <= |data|
    ensures data[n..][lo..hi] == data[n + lo..n + hi]
  {
  }

  // ------------------------------------------------------------- what the C++ parser computes

  function Overlay(buffer: seq<int>, values: seq<int>): seq<int> {
    if |values| <= |buffer| then values + buffer[|values|..] else values
  }

  function KnownToCpp(k: Kind): bool {
    k != Magnetometer && k != Unknown
  }

  function CppStore(f: Finger, k: Kind, values: seq<int>): Finger {
    f.With(k, Overlay(f.Get(k), values)).Flagged()
  }

  function Cpp(fs: seq<Finger>, data: seq<Byte>): (r: seq<Finger>)
    requires |fs| == FINGER_COUNT
    ensures |r| == FINGER_COUNT
    decreases |data|
  {
    if data == [] then fs
    else
      var k, f, rest := KindOf(data[0]), FingerOf(data[0]), data[1..];
      if f >= FINGER_COUNT || !KnownToCpp(k) then Cpp(fs, rest)
      else
        var values := Read(k, rest);
        Cpp(fs[f := CppStore(fs[f], k, values)], rest[Span(Width(k), |values|)..])
  }

  function ParseBigEndian2(d: seq<Byte>): (n: nat)
    requires |d| == 2
    ensures n == FromBytes(d) && n < 0x1_0000
  {
    PairValue(d);
    Join(d[0], d[1])
  }

  /** One record of the C++ parser, at an index. */
  lemma CppStep(fs: seq<Finger>, data: seq<Byte>, i: nat)
    requires |fs| == FINGER_COUNT && i < |data|
    ensures var k, f := KindOf(data[i]), FingerOf(data[i]);
      if f >= FINGER_COUNT || !KnownToCpp(k) then Cpp(fs, data[i..]) == Cpp(fs, data[i + 1..])
      else
        var values := Read(k, data[i + 1..]);
        var next := i + 1 + Span(Width(k), |values|);
        next <= |data| && Cpp(fs, data[i..]) == Cpp(fs[f := CppStore(fs[f], k, values)], data[next..])
  {
    hide CppStore;
    assert data[i..][1..] == data[i + 1..];
    var k, f := KindOf(data[i]), FingerOf(data[i]);
    var n := Span(Width(k), |Read(k, data[i + 1..])|);
    assert n <= |data[i + 1..]|;
    assert data[i + 1..][n..] == data[i + 1 + n..];
  }

  /** Big-endian 16-bit values into a buffer, as many as the data has and the buffer takes. The count
      of bytes read goes back in eight bits. */
  method ExtractUint16(to: array<Word>, data: seq<Byte>) returns (read: nat)
    modifies to
    ensures to[..] == Overlay(old(to[..]), Numbers(data, 2, to.Length))
    ensures read == 2 * |Numbers(data, 2, to.Length)| % 256
  {
    hide Numbers, FromBytes, ParseBigEndian2;
    ghost var all := Numbers(data, 2, to.Length);
    var cur := 0;
    while 2 * cur + 1 < |data| && cur < to.Length
      invariant cur <= |all|
      invariant forall j | 0 <= j < cur :: to[j] == all[j]
      invariant forall j | cur <= j < to.Length :: to[j] == old(to[j])
    {
      NumberAt(data, 2, to.Length, cur);
      to[cur] := ParseBigEndian2(data[2 * cur..2 * cur + 2]);
      cur := cur + 1;
    }
    read := cur * 2 % 256;
  }

  function ParseBigEndian8(d: seq<Byte>): (n: nat)
    requires |d| == 8
    ensures n == FromBytes(d)
  {
    assert d == d[..8];
    FromBytesStep(d, 1); FromBytesStep(d, 2); FromBytesStep(d, 3); FromBytesStep(d, 4);
    FromBytesStep(d, 5); FromBytesStep(d, 6); FromBytesStep(d, 7); FromBytesStep(d, 8);
    var w: seq<int> := d;
    w[0] * 0x100_0000_0000_0000 + w[1] * 0x1_0000_0000_0000 + w[2] * 0x100_0000_0000 + w[3] * 0x1_0000_0000
    + w[4] * 0x100_0000 + w[5] * 0x1_0000 + w[6] * 0x100 + w[7]
  }

  lemma FromBytesStep(d: seq<Byte>, n: nat)
    requires 0 < n <= |d|
    ensures FromBytes(d[..n]) == FromBytes(d[..n - 1]) * 256 + d[n - 1]
    ensures FromBytes(d[..0]) == 0
  {
    assert d[..n][..n - 1] == d[..n - 1];
  }

  method ExtractUint64(to: array<nat>, data: seq<Byte>) returns (read: nat)
    modifies to
    ensures to[..] == Overlay(old(to[..]), Numbers(data, 8, to.Length))
    ensures read == 8 * |Numbers(data, 8, to.Length)|
  {
    hide Numbers, FromBytes, ParseBigEndian8;
    ghost var all := Numbers(data, 8, to.Length);
    var cur := 0;
    while 8 * cur + 7 < |data| && cur < to.Length
      invariant cur <= |all|
      invariant forall j | 0 <= j < cur :: to[j] == all[j]
      invariant forall j | cur <= j < to.Length :: to[j] == old(to[j])
    {
      NumberAt(data, 8, to.Length, cur);
      to[cur] := ParseBigEndian8(data[8 * cur..8 * cur + 8]);
      cur := cur + 1;
    }
    read := cur * 8;
  }

  /** The C++ structure of a finger. A single number is a buffer of one: the parser takes its address.
      The signed ones are written through an unsigned pointer, so a buffer holds the sixteen bits. */
  class FingerData {
    var newDataAvailable: bool
    const staticTactile: array<Word>
    const dynamicTactile: array<Word>
    const accelerometer: array<Word>
    const gyroscope: array<Word>
    const temperature: array<Word>
    const timestamp: array<nat>

    predicate Valid() {
      && staticTactile.Length == STATIC_TACTILE_COUNT
      && dynamicTactile.Length == temperature.Length == timestamp.Length == 1
      && accelerometer.Length == gyroscope.Length == IMU_SIZE
      && staticTactile != dynamicTactile && staticTactile != accelerometer && staticTactile != gyroscope
      && staticTactile != temperature && dynamicTactile != accelerometer && dynamicTactile != gyroscope
      && dynamicTactile != temperature && accelerometer != gyroscope && accelerometer != temperature
      && gyroscope != temperature
    }

    ghost function Repr(): set<object> {
      {this, staticTactile, dynamicTactile, accelerometer, gyroscope, temperature, timestamp}
    }

    ghost function Contents(): Finger
      reads Repr()
    {
      Finger(newDataAvailable, staticTactile[..], SignedAll(dynamicTactile[..]),
             SignedAll(accelerometer[..]), SignedAll(gyroscope[..]), [],
             SignedAll(temperature[..]), timestamp[..])
    }

    constructor ()
      ensures Valid() && fresh(Repr()) && Contents().Sized() && !newDataAvailable
    {
      newDataAvailable := false;
      staticTactile := new Word[STATIC_TACTILE_COUNT](_ => 0);
      dynamicTactile := new Word[1](_ => 0);
      accelerometer := new Word[IMU_SIZE](_ => 0);
      gyroscope := new Word[IMU_SIZE](_ => 0);
      temperature := new Word[1](_ => 0);
      timestamp := new nat[1](_ => 0);
    }

    /** One branch of the switch: the payload of a record of kind k. */
    method Extract(k: Kind, data: seq<Byte>) returns (read: nat)
      requires Valid() && KnownToCpp(k)
      modifies Repr()
      ensures Contents() == CppStore(old(Contents()), k, Read(k, data))
      ensures read == Span(Width(k), |Read(k, data)|)
    {
      hide Numbers, SignedAll, Overlay;
      if k == StaticTactile {
        read := ExtractUint16(staticTactile, data);
        newDataAvailable := true;
      } else if k == Timestamp {
        read := ExtractUint64(timestamp, data);
        newDataAvailable := true;
      } else {
        read := ExtractSigned(k, data);
      }
    }

    /** The branches that read signed numbers. */
    method ExtractSigned(k: Kind, data: seq<Byte>) returns (read: nat)
      requires Valid() && (k.DynamicTactile? || k.Accelerometer? || k.Gyroscope? || k.Temperature?)
      modifies Repr()
      ensures Contents() == CppStore(old(Contents()), k, SignedAll(Numbers(data, 2, Count(k))))
      ensures read == 2 * |Numbers(data, 2, Count(k))|
    {
      hide Numbers, SignedAll, Overlay;
      ghost var ns := Numbers(data, 2, Count(k));
      if k == DynamicTactile {
        SignedOverlay(dynamicTactile[..], ns);
        read := ExtractUint16(dynamicTactile, data);
      } else if k == Accelerometer {
        SignedOverlay(accelerometer[..], ns);
        read := ExtractUint16(accelerometer, data);
      } else if k == Gyroscope {
        SignedOverlay(gyroscope[..], ns);
        read := ExtractUint16(gyroscope, data);
      } else {
        SignedOverlay(temperature[..], ns);
        read := ExtractUint16(temperature, data);
      }
      newDataAvailable := true;
    }
  }

  /** Reading sixteen bits as signed commutes with writing a part of a buffer. */
  lemma SignedOverlay(buffer: seq<int>, ns: seq<int>)
    requires |ns| <= |buffer|
    ensures SignedAll(Overlay(buffer, ns)) == Overlay(SignedAll(buffer), SignedAll(ns))
  {
  }

  ghost predicate Apart(fingers: seq<FingerData>) {
    && |fingers| == FINGER_COUNT
    && fingers[0].Valid() && fingers[1].Valid()
    && fingers[0].Repr() !! fingers[1].Repr()
  }

  /** The index advances with every record and never passes the end of the data. */
  method ParseSensors(data: seq<Byte>, fingers: seq<FingerData>)
    requires Apart(fingers)
    modifies fingers[0].Repr(), fingers[1].Repr()
    ensures [fingers[0].Contents(), fingers[1].Contents()]
         == Cpp([old(fingers[0].Contents()), old(fingers[1].Contents())], data)
  {
    hide CppStore, Read, Cpp, FingerData.Contents, KindOf, FingerOf;
    ghost var result := Cpp([fingers[0].Contents(), fingers[1].Contents()], data);
    var i := 0;
    assert data[0..] == data;
    while i < |data|
      invariant 0 <= i <= |data|
      invariant Cpp([fingers[0].Contents(), fingers[1].Contents()], data[i..]) == result
    {
      ghost var fs := [fingers[0].Contents(), fingers[1].Contents()];
      CppStep(fs, data, i);
      var sensorType, f := KindOf(data[i]), FingerOf(data[i]);
      i := i + 1;
      if f < FINGER_COUNT {
        if KnownToCpp(sensorType) {
          var read := fingers[f].Extract(sensorType, data[i..]);
          assert [fingers[0].Contents(), fingers[1].Contents()]
              == fs[f := CppStore(fs[f], sensorType, Read(sensorType, data[i..]))];
          i := i + read;
        }
      }
    }
    assert data[i..] == [];
    CppEnds([fingers[0].Contents(), fingers[1].Contents()]);
  }

  lemma CppEnds(fs: seq<Finger>)
    requires |fs| == FINGER_COUNT
    ensures Cpp(fs, []) == fs
  {
  }

  // ------------------------------------------------------------- what the Python parser computes

  function Min(a: int, b: int): int { if a <= b then a else b }

  /** Python keeps incomplete numbers out but steps over them, replaces the whole tactile list, and
      clears an incomplete vector. */
  function PythonStore(f: Finger, k: Kind, values: seq<int>): Finger {
    match k
    case StaticTactile => f.With(k, values).Flagged()
    case Accelerometer | Gyroscope | Magnetometer =>
      f.With(k, if |values| == IMU_SIZE then values else [0, 0, 0]).Flagged()
    case DynamicTactile | Temperature | Timestamp =>
      if |values| > 0 then f.With(k, values).Flagged() else f.Flagged()
    case Unknown => f.Flagged()
  }

  function PythonConsumed(k: Kind, data: seq<Byte>): (n: nat)
    ensures n <= |data|
  {
    if k == Timestamp then 8 * |Read(k, data)| else Min(|data|, 2 * Count(k))
  }

  function Python(fs: seq<Finger>, data: seq<Byte>): (r: seq<Finger>)
    requires |fs| == FINGER_COUNT
    ensures |r| == FINGER_COUNT
    decreases |data|
  {
    if data == [] then fs
    else
      var k, f, rest := KindOf(data[0]), FingerOf(data[0]), data[1..];
      if f >= FINGER_COUNT then Python(fs, rest)
      else Python(fs[f := PythonStore(fs[f], k, Read(k, rest))], rest[PythonConsumed(k, rest)..])
  }

  /** One record of the Python parser, at an index. */
  lemma PythonStep(fs: seq<Finger>, data: seq<Byte>, i: nat)
    requires |fs| == FINGER_COUNT && i < |data|
    ensures var k, f := KindOf(data[i]), FingerOf(data[i]);
      if f >= FINGER_COUNT then Python(fs, data[i..]) == Python(fs, data[i + 1..])
      else
        var rest := data[i + 1..];
        var next := i + 1 + PythonConsumed(k, rest);
        next <= |data| && Python(fs, data[i..]) == Python(fs[f := PythonStore(fs[f], k, Read(k, rest))], data[next..])
  {
    hide PythonStore, PythonConsumed, Read;
    assert data[i..][1..] == data[i + 1..];
    var n := PythonConsumed(KindOf(data[i]), data[i + 1..]);
    assert data[i + 1..][n..] == data[i + 1 + n..];
  }

  lemma NothingLeft(data: seq<Byte>)
    ensures data[|data|..] == []
  {
  }

  lemma PythonEnds(fs: seq<Finger>)
    requires |fs| == FINGER_COUNT
    ensures Python(fs, []) == fs
  {
  }

  method ExtractUint16Array(data: seq<Byte>, count: nat) returns (values: seq<int>, consumed: nat)
    ensures values == Numbers(data, 2, count) && consumed == Min(|data|, 2 * count)
  {
    hide Numbers, FromBytes;
    var bytesNeeded := count * 2;
    consumed := Min(|data|, bytesNeeded);
    values := [];
    ghost var all, k := Numbers(data, 2, count), 0;
    var i := 0;
    while i < consumed
      invariant i == 2 * k <= consumed + 1
      invariant values == all[..Min(k, |all|)]
    {
      if i + 1 < |data| {
        NumberAt(data, 2, count, k);
        PairValue(data[i..i + 2]);
        values := values + [Join(data[i], data[i + 1])];
      }
      i, k := i + 2, k + 1;
    }
  }

  method ExtractInt16Array(data: seq<Byte>, count: nat) returns (values: seq<int>, consumed: nat)
    ensures values == SignedAll(Numbers(data, 2, count)) && consumed == Min(|data|, 2 * count)
  {
    hide Numbers, FromBytes;
    var bytesNeeded := count * 2;
    consumed := Min(|data|, bytesNeeded);
    values := [];
    ghost var all, k := Numbers(data, 2, count), 0;
    var i := 0;
    while i < consumed
      invariant i == 2 * k <= consumed + 1
      invariant values == SignedAll(all)[..Min(k, |all|)]
    {
      if i + 1 < |data| {
        NumberAt(data, 2, count, k);
        PairValue(data[i..i + 2]);
        var value := Join(data[i], data[i + 1]);
        if value >= 32768 {
          value := value - 65536;
        }
        values := values + [value];
      }
      i, k := i + 2, k + 1;
    }
  }

  method ExtractUint64Array(data: seq<Byte>, count: nat) returns (values: seq<int>, consumed: nat)
    ensures values == Numbers(data, 8, count) && consumed == 8 * |values|
  {
    hide Numbers, FromBytes, ParseBigEndian8;
    var bytesNeeded := count * 8;
    consumed := Min(|data| / 8 * 8, bytesNeeded);
    values := [];
    ghost var all := Numbers(data, 8, count);
    var i := 0;
    while i < consumed
      invariant i == 8 * |values| <= consumed
      invariant |values| <= |all| && values == all[..|values|]
    {
      NumberAt(data, 8, count, |values|);
      values := values + [ParseBigEndian8(data[i..i + 8])];
      i := i + 8;
    }
  }

  class PythonParser {
    var fingers: seq<Finger>

    constructor ()
      ensures |fingers| == FINGER_COUNT
      ensures forall f | f in fingers :: !f.newDataAvailable && |f.magnetometer| == IMU_SIZE && f.Sized()
    {
      var none := Finger(false, seq(STATIC_TACTILE_COUNT, _ => 0), [0], [0, 0, 0], [0, 0, 0],
                         [0, 0, 0], [0], [0]);
      fingers := [none, none];
    }

    method ParseSensorPacket(packet: seq<Byte>) returns (flags: seq<bool>)
      requires |fingers| == FINGER_COUNT
      modifies this
      ensures fingers == if |packet| < HEADER_SIZE then old(fingers)
                         else Python(old(fingers), packet[HEADER_SIZE..])
      ensures flags == if |packet| < HEADER_SIZE then [false, false]
                       else [fingers[0].newDataAvailable, fingers[1].newDataAvailable]
    {
      if |packet| < HEADER_SIZE {
        return [false, false];
      }
      ParseData(packet[HEADER_SIZE..]);
      flags := [fingers[0].newDataAvailable, fingers[1].newDataAvailable];
    }

    /** The loop over the records of a packet. */
    method ParseData(data: seq<Byte>)
      requires |fingers| == FINGER_COUNT
      modifies this
      ensures fingers == Python(old(fingers), data)
    {
      hide PythonStore, PythonConsumed, Read, Python, KindOf, FingerOf;
      ghost var goal := Python(fingers, data);
      var idx := 0;
      assert data[0..] == data;
      while idx < |data|
        invariant 0 <= idx <= |data| && |fingers| == FINGER_COUNT
        invariant Python(fingers, data[idx..]) == goal
      {
        PythonStep(fingers, data, idx);
        var sensorByte := data[idx];
        idx := idx + 1;
        var sensorType, fingerId := KindOf(sensorByte), FingerOf(sensorByte);
        if fingerId < FINGER_COUNT {
          var finger, consumed := Extract(fingers[fingerId], sensorType, data[idx..]);
          fingers := fingers[fingerId := finger];
          idx := idx + consumed;
        }
      }
      NothingLeft(data);
      PythonEnds(fingers);
    }

    /** The chain of branches over the sensor type. */
    static method Extract(finger: Finger, sensorType: Kind, data: seq<Byte>)
      returns (updated: Finger, consumed: nat)
      ensures updated == PythonStore(finger, sensorType, Read(sensorType, data))
      ensures consumed == PythonConsumed(sensorType, data)
    {
      hide Numbers, SignedAll;
      updated, consumed := finger.Flagged(), 0;
      var values;
      if sensorType == StaticTactile {
        values, consumed := ExtractUint16Array(data, STATIC_TACTILE_COUNT);
        updated := updated.(staticTactile := values);
      } else if sensorType == DynamicTactile {
        values, consumed := ExtractInt16Array(data, 1);
        if |values| > 0 {
          updated := updated.(dynamicTactile := [values[0]]);
        }
      } else if sensorType == Accelerometer {
        values, consumed := ExtractInt16Array(data, IMU_SIZE);
        updated := updated.(accelerometer := if |values| == IMU_SIZE then values else [0, 0, 0]);
      } else if sensorType == Gyroscope {
        values, consumed := ExtractInt16Array(data, IMU_SIZE);
        updated := updated.(gyroscope := if |values| == IMU_SIZE then values else [0, 0, 0]);
      } else if sensorType == Magnetometer {
        values, consumed := ExtractInt16Array(data, IMU_SIZE);
        updated := updated.(magnetometer := if |values| == IMU_SIZE then values else [0, 0, 0]);
      } else if sensorType == Temperature {
        values, consumed := ExtractInt16Array(data, 1);
        if |values| > 0 {
          updated := updated.(temperature := [values[0]]);
        }
      } else if sensorType == Timestamp {
        values, consumed := ExtractUint64Array(data, 1);
        if |values| > 0 {
          updated := updated.(timestamp := [values[0]]);
        }
      }
    }
  }

  // ------------------------------------------------------------- records cut short

  /** As many numbers as are complete, at most those of the kind. */
  lemma ReadCounts(k: Kind, data: seq<Byte>)
    ensures |Read(k, data)| == Min(Count(k), |data| / Width(k))
  {
    var n := |Read(k, data)|;
    assert n == Count(k) || |data| < Span(Width(k), n + 1);
  }

  /** In C++ a record cut short overwrites the front of the buffer with what there is of it. */
  lemma CutShortInCpp(f: Finger, k: Kind, data: seq<Byte>)
    requires KnownToCpp(k) && f.Sized()
    ensures var n := Min(Count(k), |data| / Width(k));
      var stored := CppStore(f, k, Read(k, data));
      && |Read(k, data)| == n && stored.Get(k) == Read(k, data) + f.Get(k)[n..]
      && stored.Sized() && stored.newDataAvailable
      && forall j | j != k :: stored.Get(j) == f.Get(j)
  {
    ReadCounts(k, data);
    hide Read;
  }

  /** In Python the tactile list is cut short with it, a vector is cleared, and a single number stays; the
      bytes are stepped over but for those of a timestamp. */
  lemma CutShortInPython(f: Finger, k: Kind, data: seq<Byte>)
    requires k != Unknown
    ensures var stored, n := PythonStore(f, k, Read(k, data)), |data|;
      && (k == StaticTactile ==> stored.Get(k) == Read(k, data) && |Read(k, data)| == Min(28, n / 2))
      && (k in {Accelerometer, Gyroscope, Magnetometer} ==>
           stored.Get(k) == if n >= 6 then Read(k, data) else [0, 0, 0])
      && (k in {DynamicTactile, Temperature} ==> stored.Get(k) == if n >= 2 then Read(k, data) else f.Get(k))
      && (k == Timestamp ==> stored.Get(k) == if n >= 8 then Read(k, data) else f.Get(k))
      && stored.newDataAvailable && forall j | j != k :: stored.Get(j) == f.Get(j)
    ensures PythonConsumed(k, data) ==
      match k
      case StaticTactile => Min(|data|, 56)
      case Accelerometer | Gyroscope | Magnetometer => Min(|data|, 6)
      case DynamicTactile | Temperature => Min(|data|, 2)
      case Timestamp => if |data| >= 8 then 8 else 0
  {
    ReadCounts(k, data);
    hide Read;
  }
}
