/** Writing sensor records, and what both parsers make of them. */
module SensorRecords {

  import opened Bytes
  import opened SensorFields

  type FingerId = n: int | 0 <= n < 2
  type Index = n: int | 0 <= n < 4

  /** One record: what it measures, on which finger, and the values. The lowest two bits of its type
      byte are an index that no parser looks at. */
  datatype Record = Record(kind: Kind, finger: FingerId, index: Index, values: seq<int>)

  /** A number that n bytes can hold. */
  predicate Fits(v: nat, n: nat) {
    if n == 0 then v == 0 else Fits(v / 256, n - 1)
  }

  predicate InRange(k: Kind, v: int) {
    if k == Timestamp then v >= 0 && Fits(v, 8)
    else if k == StaticTactile then 0 <= v < 0x1_0000
    else -0x8000 <= v < 0x8000
  }

  ghost predicate WellFormed(r: Record) {
    && r.kind != Unknown
    && |r.values| == Values(r.kind)
    && forall v | v in r.values :: InRange(r.kind, v)
  }

  /** How many values the records of a kind carry. */
  function Values(k: Kind): nat {
    match k
    case StaticTactile => 28
    case Accelerometer | Gyroscope | Magnetometer => 3
    case _ => 1
  }

  function Nibble(k: Kind): nat {
    match k
    case StaticTactile => 1
    case DynamicTactile => 2
    case Accelerometer => 3
    case Gyroscope => 4
    case Magnetometer => 5
    case Temperature => 6
    case Timestamp => 7
    case Unknown => 0
  }

  /** Big-endian, in n bytes. */
  function ToBytes(v: int, n: nat): (b: seq<Byte>)
    ensures |b| == n
    decreases n
  {
    if n == 0 then [] else ToBytes(v / 256, n - 1) + [v % 256]
  }

  /** Two's complement for the signed kinds. */
  function Raw(v: int): int {
    if v < 0 then v + 0x1_0000 else v
  }

  function Payload(values: seq<int>, width: nat): seq<Byte> {
    if values == [] then []
    else ToBytes(Raw(values[0]), width) + Payload(values[1..], width)
  }

  function Serialize(r: Record): (b: seq<Byte>)
  {
    [Nibble(r.kind) * 16 + r.finger * 4 + r.index] + Payload(r.values, if r.kind == Timestamp then 8 else 2)
  }

  function SerializeAll(rs: seq<Record>): seq<Byte>
  {
    if rs == [] then [] else Serialize(rs[0]) + SerializeAll(rs[1..])
  }

  /** What a record says. */
  function Store(fs: seq<Finger>, r: Record): seq<Finger>
    requires |fs| == FINGER_COUNT
  {
    fs[r.finger := fs[r.finger].With(r.kind, r.values).Flagged()]
  }

  function StoreAll(fs: seq<Finger>, rs: seq<Record>): (r: seq<Finger>)
    requires |fs| == FINGER_COUNT
    ensures |r| == FINGER_COUNT
    decreases |rs|
  {
    if rs == [] then fs else StoreAll(Store(fs, rs[0]), rs[1..])
  }

  // ------------------------------------------------------------- one record back

  lemma {:induction false} BytesBack(v: nat, n: nat)
    requires Fits(v, n)
    ensures FromBytes(ToBytes(v, n)) == v
  {
    if n > 0 {
      BytesBack(v / 256, n - 1);
      var b := ToBytes(v, n);
      assert b[..|b| - 1] == ToBytes(v / 256, n - 1);
    }
  }

  lemma WordFits(v: nat)
    requires v < 0x1_0000
    ensures Fits(v, 2)
  {
    assert Fits(v / 256 / 256, 0);
    assert Fits(v / 256, 1);
  }

  /** The number of a record's value is the value's own, or its two's complement. */
  lemma NumbersBack(values: seq<int>, width: nat, rest: seq<Byte>)
    requires width == 2 || width == 8
    requires forall v | v in values :: 0 <= Raw(v) && Fits(Raw(v), width)
    ensures |Payload(values, width)| == Span(width, |values|)
    ensures var ns := Numbers(Payload(values, width) + rest, width, |values|);
      |ns| == |values| && forall i | 0 <= i < |ns| :: ns[i] == Raw(values[i])
    decreases |values|
  {
    hide FromBytes, ToBytes, Fits, Raw;
    if values != [] {
      var more := values[1..];
      NumbersBack(more, width, rest);
      var head := ToBytes(Raw(values[0]), width);
      var all := Payload(values, width) + rest;
      assert all == head + (Payload(more, width) + rest);
      assert all[..width] == head && all[width..] == Payload(more, width) + rest;
      BytesBack(Raw(values[0]), width);
      assert Numbers(all, width, |values|) == [Raw(values[0])] + Numbers(all[width..], width, |more|);
    }
  }

  /** Reading a payload gives its values back, whatever follows it. */
  lemma ReadBack(r: Record, rest: seq<Byte>)
    requires WellFormed(r)
    ensures |Payload(r.values, Width(r.kind))| == Span(Width(r.kind), Count(r.kind))
    ensures Read(r.kind, Payload(r.values, Width(r.kind)) + rest) == r.values
  {
    hide Numbers, Payload, Fits, FromBytes;
    forall v | v in r.values ensures 0 <= Raw(v) && Fits(Raw(v), Width(r.kind)) {
      assert InRange(r.kind, v);
      if r.kind != Timestamp { WordFits(Raw(v)); }
    }
    NumbersBack(r.values, Width(r.kind), rest);
    forall v | v in r.values
      ensures if r.kind == StaticTactile || r.kind == Timestamp then Raw(v) == v else Signed(Raw(v)) == v
    {
      assert InRange(r.kind, v);
    }
  }

  lemma HeaderBack(r: Record)
    requires WellFormed(r)
    ensures var b := Serialize(r)[0]; KindOf(b) == r.kind && FingerOf(b) == r.finger
  {
    var b: int := Nibble(r.kind) * 16 + r.finger * 4 + r.index;
    assert b / 16 == Nibble(r.kind) && b / 4 == Nibble(r.kind) * 4 + r.finger;
  }

  // ------------------------------------------------------------- both parsers invert serialising

  ghost predicate AllSized(fs: seq<Finger>) {
    |fs| == FINGER_COUNT && fs[0].Sized() && fs[1].Sized()
  }

  lemma Sliced(r: Record, more: seq<Byte>)
    requires WellFormed(r)
    ensures var data := Serialize(r) + more;
      data != [] && data[1..] == Payload(r.values, Width(r.kind)) + more
      && data[0] == Serialize(r)[0]
      && (Payload(r.values, Width(r.kind)) + more)[|Payload(r.values, Width(r.kind))|..] == more
  {
  }

  lemma WholeOverlay(buffer: seq<int>, values: seq<int>)
    requires |buffer| == |values|
    ensures Overlay(buffer, values) == values
  {
  }

  lemma CppReadsOne(fs: seq<Finger>, r: Record, more: seq<Byte>)
    requires WellFormed(r) && r.kind != Magnetometer && AllSized(fs)
    ensures Cpp(fs, Serialize(r) + more) == Cpp(Store(fs, r), more)
    ensures AllSized(Store(fs, r))
  {
    hide Read, Payload, Serialize, KindOf, FingerOf;
    HeaderBack(r);
    ReadBack(r, more);
    Sliced(r, more);
    WholeOverlay(fs[r.finger].Get(r.kind), r.values);
  }

  lemma PythonReadsOne(fs: seq<Finger>, r: Record, more: seq<Byte>)
    requires WellFormed(r) && |fs| == FINGER_COUNT
    ensures Python(fs, Serialize(r) + more) == Python(Store(fs, r), more)
  {
    hide Read, Payload, Serialize, KindOf, FingerOf;
    HeaderBack(r);
    ReadBack(r, more);
    Sliced(r, more);
  }

  lemma {:induction false} CppInverts(fs: seq<Finger>, rs: seq<Record>)
    requires forall r | r in rs :: WellFormed(r) && r.kind != Magnetometer
    requires AllSized(fs)
    ensures Cpp(fs, SerializeAll(rs)) == StoreAll(fs, rs)
    decreases |rs|
  {
    if rs != [] {
      hide Cpp, Serialize, Store, WellFormed;
      CppReadsOne(fs, rs[0], SerializeAll(rs[1..]));
      CppInverts(Store(fs, rs[0]), rs[1..]);
    }
  }

  lemma {:induction false} PythonInverts(fs: seq<Finger>, rs: seq<Record>)
    requires forall r | r in rs :: WellFormed(r)
    requires |fs| == FINGER_COUNT
    ensures Python(fs, SerializeAll(rs)) == StoreAll(fs, rs)
    decreases |rs|
  {
    if rs != [] {
      hide Python, Serialize, Store, WellFormed;
      PythonReadsOne(fs, rs[0], SerializeAll(rs[1..]));
      PythonInverts(Store(fs, rs[0]), rs[1..]);
    }
  }

  // ------------------------------------------------------------- what is left in each field

  predicate About(r: Record, f: FingerId, k: Kind) {
    r.finger == f && r.kind == k
  }

  /** A field that no record names keeps its value. */
  lemma {:induction false} UnnamedStays(fs: seq<Finger>, rs: seq<Record>, f: FingerId, k: Kind)
    requires |fs| == FINGER_COUNT
    requires forall r | r in rs :: !About(r, f, k)
    ensures StoreAll(fs, rs)[f].Get(k) == fs[f].Get(k)
    decreases |rs|
  {
    if rs != [] {
      assert !About(rs[0], f, k);
      assert Store(fs, rs[0])[f].Get(k) == fs[f].Get(k);
      UnnamedStays(Store(fs, rs[0]), rs[1..], f, k);
    }
  }

  /** A field holds the values of the last record about it. */
  lemma {:induction false} LastRecordWins(fs: seq<Finger>, rs: seq<Record>, i: nat)
    requires |fs| == FINGER_COUNT && i < |rs| && rs[i].kind != Unknown
    requires forall j | i < j < |rs| :: !About(rs[j], rs[i].finger, rs[i].kind)
    ensures StoreAll(fs, rs)[rs[i].finger].Get(rs[i].kind) == rs[i].values
    decreases |rs|
  {
    if i == 0 {
      UnnamedStays(Store(fs, rs[0]), rs[1..], rs[0].finger, rs[0].kind);
    } else {
      assert rs[1..][i - 1] == rs[i];
      LastRecordWins(Store(fs, rs[0]), rs[1..], i - 1);
    }
  }

  /** The fingers flagged are those named, and those already flagged. */
  lemma {:induction false} FlagsAreNamed(fs: seq<Finger>, rs: seq<Record>, f: FingerId)
    requires |fs| == FINGER_COUNT
    ensures StoreAll(fs, rs)[f].newDataAvailable
        <==> fs[f].newDataAvailable || exists r :: r in rs && r.finger == f
    decreases |rs|
  {
    if rs != [] {
      FlagsAreNamed(Store(fs, rs[0]), rs[1..], f);
      assert forall r :: r in rs <==> r == rs[0] || r in rs[1..];
    }
  }

  // ------------------------------------------------------------- the two parsers agree

  function WithoutMagnetometer(fs: seq<Finger>): (r: seq<Finger>)
    requires |fs| == FINGER_COUNT
    ensures |r| == FINGER_COUNT
  {
    [fs[0].(magnetometer := []), fs[1].(magnetometer := [])]
  }

  /** Only complete records of the kinds both know, and bytes for fingers that are not there. */
  predicate Clean(data: seq<Byte>)
    decreases |data|
  {
    data == []
    || var k, rest := KindOf(data[0]), data[1..];
       if FingerOf(data[0]) >= FINGER_COUNT then Clean(rest)
       else KnownToCpp(k) && |Read(k, rest)| == Count(k) && Clean(rest[Span(Width(k), Count(k))..])
  }

  lemma {:induction false} ParsersAgree(fs: seq<Finger>, data: seq<Byte>)
    requires Clean(data) && AllSized(fs)
    ensures Cpp(WithoutMagnetometer(fs), data) == WithoutMagnetometer(Python(fs, data))
    decreases |data|
  {
    hide Read, KindOf, FingerOf, PythonStore, CppStore;
    if data != [] {
      var k, f, rest := KindOf(data[0]), FingerOf(data[0]), data[1..];
      if f >= FINGER_COUNT {
        ParsersAgree(fs, rest);
      } else {
        var values := Read(k, rest);
        var more := rest[Span(Width(k), Count(k))..];
        var stored := fs[f := PythonStore(fs[f], k, values)];
        StoresAgree(fs[f], k, values);
        ParsersAgree(stored, more);
        assert WithoutMagnetometer(fs)[f := CppStore(WithoutMagnetometer(fs)[f], k, values)]
            == WithoutMagnetometer(stored);
      }
    }
  }

  lemma {:induction false} SerializedIsClean(rs: seq<Record>)
    requires forall r | r in rs :: WellFormed(r) && r.kind != Magnetometer
    ensures Clean(SerializeAll(rs))
    decreases |rs|
  {
    if rs != [] {
      var r, more := rs[0], SerializeAll(rs[1..]);
      assert WellFormed(r);
      SerializedIsClean(rs[1..]);
      hide Read, Payload, Serialize, KindOf, FingerOf, WellFormed;
      HeaderBack(r);
      ReadBack(r, more);
      Sliced(r, more);
    }
  }

  lemma StoresAgree(f: Finger, k: Kind, values: seq<int>)
    requires f.Sized() && KnownToCpp(k) && |values| == Count(k)
    ensures PythonStore(f, k, values).Sized()
    ensures CppStore(f.(magnetometer := []), k, values) == PythonStore(f, k, values).(magnetometer := [])
  {
    WholeOverlay(f.Get(k), values);
  }

  // ------------------------------------------------------------- what C++ does not know

  /** A type byte the C++ parser passes over: of a finger that is not there, or of a kind it does not
      know. */
  predicate Inert(b: Byte) {
    FingerOf(b) >= FINGER_COUNT || !KnownToCpp(KindOf(b))
  }

  ghost predicate AllInert(data: seq<Byte>) {
    forall b | b in data :: Inert(b)
  }

  lemma InertOneMore(data: seq<Byte>)
    requires data != []
    ensures AllInert(data) <==> Inert(data[0]) && AllInert(data[1..])
  {
    hide Inert;
    assert data == [data[0]] + data[1..];
  }

  lemma FrontApart(data: seq<Byte>, more: seq<Byte>)
    requires data != []
    ensures data + more == [data[0]] + (data[1..] + more)
  {
  }

  lemma {:induction false} InertIsSkipped(fs: seq<Finger>, data: seq<Byte>, more: seq<Byte>)
    requires |fs| == FINGER_COUNT && AllInert(data)
    ensures Cpp(fs, data + more) == Cpp(fs, more)
    decreases |data|
  {
    if data == [] {
      assert data + more == more;
    } else {
      hide Cpp, Inert, AllInert;
      InertOneMore(data);
      InertIsSkipped(fs, data[1..], more);
      CppSkips(fs, data[0], data[1..] + more);
      FrontApart(data, more);
    }
  }

  /** A finger once flagged stays flagged. */
  lemma {:induction false} FlagsStay(fs: seq<Finger>, data: seq<Byte>, f: FingerId)
    requires |fs| == FINGER_COUNT && fs[f].newDataAvailable
    ensures Cpp(fs, data)[f].newDataAvailable
    decreases |data|
  {
    hide Read, KindOf, FingerOf;
    if data != [] {
      var k, g, rest := KindOf(data[0]), FingerOf(data[0]), data[1..];
      if g >= FINGER_COUNT || !KnownToCpp(k) {
        FlagsStay(fs, rest, f);
      } else {
        var values := Read(k, rest);
        FlagsStay(fs[g := CppStore(fs[g], k, values)], rest[Span(Width(k), |values|)..], f);
      }
    }
  }

  /** Fingers without new data are left alone by a payload exactly when every byte of it is inert, as
      a type byte: the first one that is not is taken for a record. */
  lemma {:induction false} UntouchedIffInert(fs: seq<Finger>, data: seq<Byte>)
    requires |fs| == FINGER_COUNT && !fs[0].newDataAvailable && !fs[1].newDataAvailable
    ensures Cpp(fs, data) == fs <==> AllInert(data)
    decreases |data|
  {
    hide Cpp, Inert, AllInert;
    if data == [] {
      CppEnds(fs);
      NoneInert();
    } else {
      InertOneMore(data);
      if Inert(data[0]) {
        UntouchedIffInert(fs, data[1..]);
        assert data == [data[0]] + data[1..];
        CppSkips(fs, data[0], data[1..]);
      } else {
        FlaggedByFirst(fs, data);
      }
    }
  }

  lemma NoneInert()
    ensures AllInert([])
  {
  }

  lemma FlaggedByFirst(fs: seq<Finger>, data: seq<Byte>)
    requires |fs| == FINGER_COUNT && data != [] && !Inert(data[0])
    ensures FingerOf(data[0]) < FINGER_COUNT && Cpp(fs, data)[FingerOf(data[0])].newDataAvailable
  {
    hide Read, KindOf, FingerOf, Finger.With;
    var k, f, rest := KindOf(data[0]), FingerOf(data[0]), data[1..];
    var values := Read(k, rest);
    FlagsStay(fs[f := CppStore(fs[f], k, values)], rest[Span(Width(k), |values|)..], f);
  }

  /** So the C++ parser is unharmed by a magnetometer record exactly when none of its six payload bytes
      looks like the type byte of a record it knows. */
  lemma MagnetometerHarmlessIffInert(fs: seq<Finger>, r: Record)
    requires |fs| == FINGER_COUNT && !fs[0].newDataAvailable && !fs[1].newDataAvailable
    requires WellFormed(r) && r.kind == Magnetometer
    ensures |Payload(r.values, 2)| == 6
    ensures Cpp(fs, Serialize(r)) == fs <==> AllInert(Payload(r.values, 2))
  {
    HeaderBack(r);
    ReadBack(r, []);
    hide Read, Payload, KindOf, FingerOf, Cpp, AllInert;
    UntouchedIffInert(fs, Serialize(r));
    InertOneMore(Serialize(r));
  }

  /** The records of the kinds C++ knows. */
  function KnownRecords(rs: seq<Record>): seq<Record> {
    if rs == [] then []
    else (if rs[0].kind == Magnetometer then [] else [rs[0]]) + KnownRecords(rs[1..])
  }

  /** Among other records too: with inert payloads, magnetometer records are as if they were not there. */
  lemma {:induction false} InertMagnetometersAreIgnored(fs: seq<Finger>, rs: seq<Record>)
    requires AllSized(fs)
    requires forall r | r in rs :: WellFormed(r) && (r.kind == Magnetometer ==> AllInert(Payload(r.values, 2)))
    ensures Cpp(fs, SerializeAll(rs)) == StoreAll(fs, KnownRecords(rs))
    decreases |rs|
  {
    if rs != [] {
      hide Cpp, Store, Serialize, WellFormed, AllInert, AllSized;
      var r, more := rs[0], SerializeAll(rs[1..]);
      assert SerializeAll(rs) == Serialize(r) + more;
      if r.kind == Magnetometer {
        MagnetometerIsInert(r);
        InertIsSkipped(fs, Serialize(r), more);
        InertMagnetometersAreIgnored(fs, rs[1..]);
        assert KnownRecords(rs) == KnownRecords(rs[1..]);
      } else {
        CppReadsOne(fs, r, more);
        InertMagnetometersAreIgnored(Store(fs, r), rs[1..]);
        StoreFirst(fs, r, KnownRecords(rs[1..]));
      }
    }
  }

  lemma StoreFirst(fs: seq<Finger>, r: Record, rs: seq<Record>)
    requires |fs| == FINGER_COUNT
    ensures StoreAll(fs, [r] + rs) == StoreAll(Store(fs, r), rs)
  {
    assert ([r] + rs)[1..] == rs;
  }

  lemma MagnetometerIsInert(r: Record)
    requires WellFormed(r) && r.kind == Magnetometer && AllInert(Payload(r.values, 2))
    ensures AllInert(Serialize(r))
  {
    HeaderBack(r);
    hide Payload, KindOf, FingerOf, AllInert;
    InertOneMore(Serialize(r));
  }

  /** A reading whose payload is not: it changes the dynamic tactile value that the C++ reader reports. */
  lemma MagnetometerIsMisread(fs: seq<Finger>)
    requires AllSized(fs)
    ensures var r := Record(Magnetometer, 0, 0, [0x2012, 0x3480, -0x7F80]);
      && WellFormed(r)
      && Python(fs, Serialize(r))[0].dynamicTactile == fs[0].dynamicTactile
      && Cpp(WithoutMagnetometer(fs), Serialize(r))[0].dynamicTactile == [0x1234]
  {
    var r := Record(Magnetometer, 0, 0, [0x2012, 0x3480, -0x7F80]);
    assert |fs[0].Get(DynamicTactile)| == 1;
    hide Cpp, Python, Serialize;
    PythonReadsOne(fs, r, []);
    assert Serialize(r) + [] == Serialize(r);
    PythonEnds(Store(fs, r));
    MisreadBytes();
    Misread(WithoutMagnetometer(fs));
  }

  lemma MisreadBytes()
    ensures Serialize(Record(Magnetometer, 0, 0, [0x2012, 0x3480, -0x7F80]))
         == [0x50, 0x20, 0x12, 0x34, 0x80, 0x80, 0x80]
  {
    hide ToBytes, Payload;
    PayloadFirst(0x2012, [0x3480, -0x7F80]);
    PayloadFirst(0x3480, [-0x7F80]);
    PayloadFirst(-0x7F80, []);
    WordBytes(0x2012);
    WordBytes(0x3480);
    WordBytes(0x8080);
    PayloadOfNone();
    var values := [0x2012, 0x3480, -0x7F80];
    assert values == [0x2012] + [0x3480, -0x7F80] && [0x3480, -0x7F80] == [0x3480] + [-0x7F80]
        && [-0x7F80] == [-0x7F80] + [];
    assert Payload(values, 2) == [0x20, 0x12] + ([0x34, 0x80] + ([0x80, 0x80] + []));
  }

  lemma PayloadOfNone()
    ensures Payload([], 2) == []
  {
  }

  lemma WordBytes(n: int)
    requires 0 <= n < 0x1_0000
    ensures ToBytes(n, 2) == [n / 256, n % 256]
  {
    assert ToBytes(n / 256, 1) == [n / 256];
  }

  lemma PayloadFirst(v: int, more: seq<int>)
    ensures Payload([v] + more, 2) == ToBytes(Raw(v), 2) + Payload(more, 2)
  {
    hide ToBytes;
    var values := [v] + more;
    assert values[0] == v && values[1..] == more;
  }

  lemma Misread(fs: seq<Finger>)
    requires |fs| == FINGER_COUNT && |fs[0].dynamicTactile| == 1
    ensures Cpp(fs, [0x50, 0x20, 0x12, 0x34, 0x80, 0x80, 0x80])[0].dynamicTactile == [0x1234]
  {
    hide Cpp, CppStore, Read;
    var tail: seq<Byte> := [0x80, 0x80, 0x80];
    var data := [0x50] + ([0x20] + ([0x12, 0x34] + tail));
    assert data == [0x50, 0x20, 0x12, 0x34, 0x80, 0x80, 0x80];
    CppSkips(fs, 0x50, [0x20] + ([0x12, 0x34] + tail));
    var after := fs[0 := CppStore(fs[0], DynamicTactile, [0x1234])];
    CppTakesPair(fs, tail);
    assert tail == [0x80] + ([0x80] + ([0x80] + []));
    CppSkips(after, 0x80, [0x80] + ([0x80] + []));
    CppSkips(after, 0x80, [0x80] + []);
    CppSkips(after, 0x80, []);
    CppEnds(after);
    StoredPair(fs[0]);
  }

  lemma StoredPair(f: Finger)
    requires |f.dynamicTactile| == 1
    ensures CppStore(f, DynamicTactile, [0x1234]).dynamicTactile == [0x1234]
  {
  }

  lemma CppSkips(fs: seq<Finger>, b: Byte, rest: seq<Byte>)
    requires |fs| == FINGER_COUNT && Inert(b)
    ensures Cpp(fs, [b] + rest) == Cpp(fs, rest)
  {
    hide Read, CppStore, KindOf, FingerOf;
    assert ([b] + rest)[1..] == rest;
  }

  lemma CppTakesPair(fs: seq<Finger>, tail: seq<Byte>)
    requires |fs| == FINGER_COUNT
    ensures Cpp(fs, [0x20] + ([0x12, 0x34] + tail)) == Cpp(fs[0 := CppStore(fs[0], DynamicTactile, [0x1234])], tail)
  {
    hide Read, CppStore;
    var rest := [0x12, 0x34] + tail;
    ReadsPair(rest);
    assert ([0x20] + rest)[1..] == rest && rest[2..] == tail;
  }

  lemma ReadsPair(data: seq<Byte>)
    requires |data| >= 2 && data[0] < 0x80
    ensures Read(DynamicTactile, data) == [Join(data[0], data[1])]
  {
    PairValue(data[..2]);
    assert Numbers(data, 2, 1) == [FromBytes(data[..2])];
  }
}
