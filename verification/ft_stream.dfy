/** The receive loop of the force/torque stream: whole frames are taken from the front of a buffer,
    resyncing on the header and the CRC. */
module ForceTorqueStream {
  import opened Bytes
  import opened Crc16

  const FRAME_BYTES := 16
  const HEADER0: bv8 := 0x20
  const HEADER1: bv8 := 0x4E

  predicate IsFrame(f: seq<bv8>) {
    |f| == 16 && f[0] == 0x20 && f[1] == 0x4E && Passes(f)
  }

  /** How many bytes one pass of the loop removes. */
  function Taken(buffer: seq<bv8>): (n: nat)
    requires |buffer| >= FRAME_BYTES
    ensures 0 < n <= FRAME_BYTES
  {
    if buffer[0] != HEADER0 then 1
    else if buffer[1] != HEADER1 then 2
    else if !Passes(buffer[..FRAME_BYTES]) then 2
    else FRAME_BYTES
  }

  datatype Drained = Drained(frames: seq<seq<bv8>>, rest: seq<bv8>)

  /** What the loop delivers from a buffer and what it leaves. */
  function Drain(buffer: seq<bv8>): (d: Drained)
    ensures |d.rest| < FRAME_BYTES
    decreases |buffer|
  {
    if |buffer| < FRAME_BYTES then Drained([], buffer)
    else
      var n := Taken(buffer);
      var d := Drain(buffer[n..]);
      if n == FRAME_BYTES then Drained([buffer[..n]] + d.frames, d.rest) else d
  }

  class Reader {
    var buffer: seq<bv8>

    constructor ()
      ensures buffer == []
    {
      buffer := [];
    }

    /** One chunk arrives from the port; the frames go to the callback in this order. */
    method Receive(chunk: seq<bv8>) returns (delivered: seq<seq<bv8>>)
      modifies this
      ensures Drained(delivered, buffer) == Drain(old(buffer) + chunk)
    {
      delivered := [];
      buffer := buffer + chunk;
      ghost var all := buffer;
      while |buffer| >= FRAME_BYTES
        invariant Drain(all) == Drained(delivered + Drain(buffer).frames, Drain(buffer).rest)
        decreases |buffer|
      {
        DrainStep(buffer);
        hide Drain, Passes, Register, Lsb, Msb, Remainder, Dividend, Bits, BitsOf;
        if buffer[0] != HEADER0 {
          buffer := buffer[1..];
          continue;
        }
        if buffer[1] != HEADER1 {
          buffer := buffer[2..];
          continue;
        }
        var frame := buffer[..FRAME_BYTES];
        var lsb, msb := Compute(frame[..FRAME_BYTES - 2]);
        FrameCheck(frame);
        if frame[FRAME_BYTES - 2] != lsb || frame[FRAME_BYTES - 1] != msb {
          buffer := buffer[2..];
          continue;
        }
        delivered := delivered + [frame];
        buffer := buffer[FRAME_BYTES..];
      }
    }
  }

  lemma FrameCheck(frame: seq<bv8>)
    requires |frame| == FRAME_BYTES
    ensures var crc := Register(START, frame[..FRAME_BYTES - 2]);
      Passes(frame) <==> frame[FRAME_BYTES - 2] == Lsb(crc) && frame[FRAME_BYTES - 1] == Msb(crc)
  {
    hide Register, Lsb, Msb;
  }

  // ------------------------------------------------------------- chunking does not matter

  function After(first: Drained, more: seq<bv8>): Drained {
    var d := Drain(first.rest + more);
    Drained(first.frames + d.frames, d.rest)
  }

  lemma TakenFromTheFront(a: seq<bv8>, b: seq<bv8>)
    requires |a| >= FRAME_BYTES
    ensures Taken(a + b) == Taken(a)
  {
    hide Passes;
    assert (a + b)[..FRAME_BYTES] == a[..FRAME_BYTES];
  }

  lemma {:induction false} DrainInParts(a: seq<bv8>, b: seq<bv8>)
    ensures Drain(a + b) == After(Drain(a), b)
    decreases |a|
  {
    hide Taken;
    if |a| >= FRAME_BYTES {
      var n := Taken(a);
      TakenFromTheFront(a, b);
      assert (a + b)[n..] == a[n..] + b && (a + b)[..n] == a[..n];
      DrainInParts(a[n..], b);
    }
  }

  /** A reader with the given buffer receives the chunks one after another. */
  function ReceiveAll(buffer: seq<bv8>, chunks: seq<seq<bv8>>): Drained
    decreases |chunks|
  {
    if chunks == [] then Drained([], buffer)
    else
      var first := Drain(buffer + chunks[0]);
      var d := ReceiveAll(first.rest, chunks[1..]);
      Drained(first.frames + d.frames, d.rest)
  }

  /** However the port cuts the stream into chunks, the same frames are delivered and the same bytes
      are left. */
  lemma {:induction false} ChunkingDoesNotMatter(buffer: seq<bv8>, chunks: seq<seq<bv8>>)
    requires |buffer| < FRAME_BYTES
    ensures ReceiveAll(buffer, chunks) == Drain(buffer + Concat(chunks))
    decreases |chunks|
  {
    hide Taken;
    if chunks == [] {
      assert buffer + [] == buffer;
    } else {
      var first := Drain(buffer + chunks[0]);
      ChunkingDoesNotMatter(first.rest, chunks[1..]);
      DrainInParts(buffer + chunks[0], Concat(chunks[1..]));
      assert buffer + Concat(chunks) == buffer + chunks[0] + Concat(chunks[1..]);
    }
  }

  // ------------------------------------------------------------- what is delivered

  /** The frames stand in the stream at the given places, each at or after the end of the one before. */
  ghost predicate Located(frames: seq<seq<bv8>>, starts: seq<nat>, stream: seq<bv8>, from: nat)
    decreases |frames|
  {
    |starts| == |frames| && (frames != [] ==>
      && from <= starts[0] && starts[0] + FRAME_BYTES <= |stream|
      && frames[0] == stream[starts[0]..starts[0] + FRAME_BYTES] && IsFrame(frames[0])
      && Located(frames[1..], starts[1..], stream, starts[0] + FRAME_BYTES))
  }

  lemma {:induction false} LocatedFromEarlier(frames: seq<seq<bv8>>, starts: seq<nat>, stream: seq<bv8>,
                                              from: nat, earlier: nat)
    requires Located(frames, starts, stream, from) && earlier <= from
    ensures Located(frames, starts, stream, earlier)
  {
    hide IsFrame;
  }

  /** Every delivered frame has the header and a valid CRC, stands in the stream, and starts at or
      after the end of the one before; what is left is the end of the stream. */
  lemma {:induction false} DeliveredFramesAreReal(stream: seq<bv8>, at: nat) returns (starts: seq<nat>)
    requires at <= |stream|
    ensures Located(Drain(stream[at..]).frames, starts, stream, at)
    ensures Drain(stream[at..]).rest == stream[|stream| - |Drain(stream[at..]).rest|..]
    decreases |stream| - at
  {
    hide *;
    var buffer := stream[at..];
    starts := [];
    DrainStep(buffer);
    if |buffer| < FRAME_BYTES {
      NoneLocated(stream, at);
    } else {
      var n := Taken(buffer);
      assert buffer[n..] == stream[at + n..];
      var d := Drain(buffer[n..]);
      starts := DeliveredFramesAreReal(stream, at + n);
      if n == FRAME_BYTES {
        TakenIsFrame(buffer);
        assert buffer[..n] == stream[at..at + n];
        OneMoreLocated(buffer[..n], d.frames, starts, stream, at);
        starts := [at] + starts;
      } else {
        LocatedFromEarlier(d.frames, starts, stream, at + n, at);
      }
    }
  }

  lemma DrainStep(buffer: seq<bv8>)
    ensures |buffer| < FRAME_BYTES ==> Drain(buffer) == Drained([], buffer)
    ensures |buffer| >= FRAME_BYTES ==>
      var n := Taken(buffer);
      var d := Drain(buffer[n..]);
      Drain(buffer) == if n == FRAME_BYTES then Drained([buffer[..n]] + d.frames, d.rest) else d
  {
  }

  lemma NoneLocated(stream: seq<bv8>, from: nat)
    ensures Located([], [], stream, from)
  {
  }

  lemma OneMoreLocated(frame: seq<bv8>, frames: seq<seq<bv8>>, starts: seq<nat>, stream: seq<bv8>, at: nat)
    requires at + FRAME_BYTES <= |stream| && frame == stream[at..at + FRAME_BYTES] && IsFrame(frame)
    requires Located(frames, starts, stream, at + FRAME_BYTES)
    ensures Located([frame] + frames, [at] + starts, stream, at)
  {
    hide IsFrame;
    assert ([frame] + frames)[1..] == frames && ([at] + starts)[1..] == starts;
    assert |starts| == |frames|;
  }

  lemma TakenIsFrame(buffer: seq<bv8>)
    requires |buffer| >= FRAME_BYTES
    ensures Taken(buffer) == FRAME_BYTES <==> IsFrame(buffer[..FRAME_BYTES])
  {
    hide Passes;
  }

  // ------------------------------------------------------------- synchronising

  /** Back-to-back valid frames are delivered completely, in order, leaving nothing. */
  lemma {:induction false} FramesAreDelivered(frames: seq<seq<bv8>>)
    requires forall f | f in frames :: IsFrame(f)
    ensures Drain(Concat(frames)) == Drained(frames, [])
    decreases |frames|
  {
    hide Passes;
    if frames != [] {
      var all, rest := Concat(frames), Concat(frames[1..]);
      FramesAreDelivered(frames[1..]);
      assert IsFrame(frames[0]);
      assert all[..FRAME_BYTES] == frames[0] && all[FRAME_BYTES..] == rest;
      assert [frames[0]] + frames[1..] == frames;
    }
  }

  /** What stands before a stream is noise: no valid frame begins in it. */
  ghost predicate IsNoise(noise: seq<bv8>, stream: seq<bv8>) {
    forall i | 0 <= i < |noise| :: !FrameAt(noise + stream, i)
  }

  predicate FrameAt(s: seq<bv8>, i: nat) {
    i + FRAME_BYTES <= |s| && IsFrame(s[i..i + FRAME_BYTES])
  }

  /** How many first header bytes the noise ends in. */
  function TrailingHeaders(noise: seq<bv8>): (n: nat)
    ensures n <= |noise|
  {
    if noise == [] || noise[|noise| - 1] != HEADER0 then 0 else 1 + TrailingHeaders(noise[..|noise| - 1])
  }

  /** Frames after noise, of any bytes, are all delivered, in order and nothing else, exactly when
      the noise ends in an even number of first header bytes: the two-byte skip takes those in pairs, and
      an odd one out takes the first frame's own with it. Then a frame is lost. */
  lemma FramesAfterNoise(noise: seq<bv8>, frames: seq<seq<bv8>>)
    requires frames != [] && forall f | f in frames :: IsFrame(f)
    requires IsNoise(noise, Concat(frames))
    ensures Drain(noise + Concat(frames)) == Drained(frames, []) <==> TrailingHeaders(noise) % 2 == 0
    ensures TrailingHeaders(noise) % 2 == 1 ==> |Drain(noise + Concat(frames)).frames| < |frames|
  {
    FramesAreDelivered(frames);
    FramesFillTheStream(frames);
    assert IsFrame(frames[0]);
    hide *;
    var stream := Concat(frames);
    NoiseIsSkipped(noise, stream);
    if TrailingHeaders(noise) % 2 == 1 {
      DrainFits(stream[1..]);
    }
  }

  lemma {:induction false} FramesFillTheStream(frames: seq<seq<bv8>>)
    requires forall f | f in frames :: IsFrame(f)
    ensures |Concat(frames)| == FRAME_BYTES * |frames|
    ensures frames != [] ==> Concat(frames)[0] == HEADER0
    decreases |frames|
  {
    hide Passes;
    if frames != [] {
      assert IsFrame(frames[0]);
      FramesFillTheStream(frames[1..]);
    }
  }

  /** Nothing is delivered twice or out of nothing. */
  lemma {:induction false} DrainFits(buffer: seq<bv8>)
    ensures FRAME_BYTES * |Drain(buffer).frames| + |Drain(buffer).rest| <= |buffer|
    decreases |buffer|
  {
    hide Taken;
    if |buffer| >= FRAME_BYTES {
      DrainFits(buffer[Taken(buffer)..]);
    }
  }

  /** The loop passes noise, and takes the stream's first byte along when the noise ends unpaired. */
  lemma {:induction false} NoiseIsSkipped(noise: seq<bv8>, stream: seq<bv8>)
    requires |stream| >= FRAME_BYTES && stream[0] == HEADER0 && IsNoise(noise, stream)
    ensures Drain(noise + stream) == Drain(if TrailingHeaders(noise) % 2 == 0 then stream else stream[1..])
    decreases |noise|
  {
    hide Drain, TrailingHeaders, Passes, Taken;
    if noise == [] {
      assert noise + stream == stream;
      NoTrailing();
    } else {
      NoiseStep(noise, stream);
      if noise[0] == HEADER0 && |noise| == 1 {
        OneByte(noise[0]);
        assert noise == [noise[0]];
      } else {
        var n := if noise[0] != HEADER0 then 1 else 2;
        TrailingAfter(noise[..n], noise[n..]);
        assert noise == noise[..n] + noise[n..];
        if n == 1 {
          OneByte(noise[0]);
          assert noise[..1] == [noise[0]];
        } else {
          TwoBytes(noise[1]);
          assert noise[..2] == [HEADER0, noise[1]];
        }
        StillNoise(noise, n, stream);
        NoiseIsSkipped(noise[n..], stream);
      }
    }
  }

  /** One pass of the loop over noise. */
  lemma NoiseStep(noise: seq<bv8>, stream: seq<bv8>)
    requires |stream| >= FRAME_BYTES && noise != [] && IsNoise(noise, stream)
    ensures var n := if noise[0] != HEADER0 then 1 else 2;
      Drain(noise + stream) == Drain(if n <= |noise| then noise[n..] + stream else stream[1..])
  {
    var all := noise + stream;
    assert !FrameAt(all, 0);
    FrontOrSkip(all);
    Rests(noise, stream);
    hide Drain, FrameAt, Taken, IsNoise;
    DrainStep(all);
  }

  lemma Rests(noise: seq<bv8>, stream: seq<bv8>)
    requires noise != [] && |stream| >= 1
    ensures (noise + stream)[1..] == noise[1..] + stream
    ensures (noise + stream)[2..] == if |noise| >= 2 then noise[2..] + stream else stream[1..]
  {
  }

  lemma StillNoise(noise: seq<bv8>, n: nat, stream: seq<bv8>)
    requires n <= |noise| && IsNoise(noise, stream)
    ensures IsNoise(noise[n..], stream)
  {
    hide FrameAt;
    var all := noise + stream;
    assert all[n..] == noise[n..] + stream;
    forall i | 0 <= i < |noise[n..]| ensures !FrameAt(noise[n..] + stream, i) {
      FrameFurther(all, n, i);
      assert !FrameAt(all, n + i);
    }
  }

  lemma FrontOrSkip(all: seq<bv8>)
    requires |all| >= FRAME_BYTES
    ensures !FrameAt(all, 0) ==> Taken(all) == if all[0] != HEADER0 then 1 else 2
  {
    hide Passes;
    assert all[0..FRAME_BYTES] == all[..FRAME_BYTES];
  }

  lemma FrameFurther(all: seq<bv8>, n: nat, i: nat)
    requires n <= |all|
    ensures FrameAt(all[n..], i) <==> FrameAt(all, n + i)
  {
    hide IsFrame;
    if n + i + FRAME_BYTES <= |all| {
      assert all[n..][i..i + FRAME_BYTES] == all[n + i..n + i + FRAME_BYTES];
    }
  }

  lemma NoTrailing()
    ensures TrailingHeaders([]) == 0
  {
  }

  lemma OneByte(b: bv8)
    ensures TrailingHeaders([b]) == if b == HEADER0 then 1 else 0
  {
  }

  lemma TwoBytes(b: bv8)
    ensures TrailingHeaders([HEADER0, b]) == if b == HEADER0 then 2 else 0
  {
    assert [HEADER0, b][..1] == [HEADER0];
    OneByte(HEADER0);
  }

  /** Only a tail made of nothing else lets the bytes before it count. */
  lemma {:induction false} TrailingAfter(head: seq<bv8>, tail: seq<bv8>)
    ensures TrailingHeaders(head + tail)
         == TrailingHeaders(tail) + if TrailingHeaders(tail) == |tail| then TrailingHeaders(head) else 0
    decreases |tail|
  {
    if tail == [] {
      assert head + tail == head;
    } else {
      var n := |tail| - 1;
      assert (head + tail)[..|head + tail| - 1] == head + tail[..n];
      TrailingAfter(head, tail[..n]);
    }
  }

  /** Bytes among which no header byte is cost nothing. */
  lemma NoiseWithoutTheByte(noise: seq<bv8>, frames: seq<seq<bv8>>)
    requires HEADER0 !in noise && frames != []
    requires forall f | f in frames :: IsFrame(f)
    ensures Drain(noise + Concat(frames)) == Drained(frames, [])
  {
    FramesFillTheStream(frames);
    forall i | 0 <= i < |noise| ensures !FrameAt(noise + Concat(frames), i) {
      assert (noise + Concat(frames))[i] == noise[i] && noise[i] in noise;
    }
    assert noise != [] ==> noise[|noise| - 1] in noise;
    FramesAfterNoise(noise, frames);
  }

  /** One stray first header byte costs a frame, and two cost none. */
  lemma StrayHeaderBytes(frame: seq<bv8>)
    requires IsFrame(frame)
    ensures Drain([HEADER0] + frame) == Drained([], frame[1..])
    ensures Drain([HEADER0, HEADER0] + frame) == Drained([frame], [])
  {
    hide Passes;
    var one := [HEADER0] + frame;
    assert one[1] == frame[0] != HEADER1 && one[2..] == frame[1..];
    assert Drain(frame[1..]) == Drained([], frame[1..]);
    var two := [HEADER0, HEADER0] + frame;
    assert two[2..] == frame && frame[..FRAME_BYTES] == frame && frame[FRAME_BYTES..] == [];
    assert Drain(frame) == Drained([frame], []);
  }
}
