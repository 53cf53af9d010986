/**
 * The decoding loop the framing adapters share (src/codec_pcm.c,
 * src/codec_alaw.c, src/codec_mulaw.c and the two-stream branch of
 * src/codec_amr.c and src/codec_amr_wb.c): every whole packet buffered so
 * far is taken out; audio payloads are converted by the codec and appended
 * to the audio output, every other payload goes verbatim to the side
 * output; a packet larger than the scratch area makes the area grow to
 * exactly its size and is read again.  Also the read that hands out
 * decoded audio before side data.
 */
module Demux {
  import opened Types
  import opened Leb128
  import opened Frame
  import opened Buffer

  /**
   * The outcome of one decode call: its status, what it appends to the
   * audio and side outputs, and the unread input it leaves buffered.
   */
  /** The scratch area the framing decoders start from (frame_buf_capacity). */
  const SCRATCH_CAPACITY: nat := 8192

  datatype Demuxed = Demuxed(status: int, audio: seq<byte>, side: seq<byte>, rest: seq<byte>)

  /** One payload delivered, in front of what the rest of the input yields. */
  function Route(f: FrameRead, transform: seq<byte> -> seq<byte>, d: Demuxed): Demuxed
    requires f.Frame?
  {
    if f.streamType == STREAM_AUDIO then d.(audio := transform(f.payload) + d.audio)
    else d.(side := f.payload + d.side)
  }

  /**
   * The decode loop on the buffered bytes `s` with a scratch area of
   * `capacity` bytes.  It stops with OK once the next packet is
   * incomplete, and with INVAL at a header longer than nine bytes; it never
   * passes on AGAIN.  It consumes a prefix of the input, and whatever it
   * leaves is exactly what it stopped at.
   */
  function Demux(s: seq<byte>, capacity: nat, numStreams: int, transform: seq<byte> -> seq<byte>): (d: Demuxed)
    requires capacity > 0
    ensures d.status == OK || d.status == INVAL
    ensures |d.rest| <= |s| && d.rest == s[|s| - |d.rest|..]
    decreases |s|
  {
    var probe := ParseFrame(s, capacity, numStreams);
    match probe.result
    case Again => Demuxed(OK, [], [], s)
    case Malformed => Demuxed(INVAL, [], [], s)
    case TooSmall(size, _) =>
      RetryFits(s, capacity, numStreams);
      var p := ParseFrame(s, size, numStreams);
      Route(p.result, transform, Demux(s[p.consumed..], size, numStreams, transform))
    case Frame(_, _) =>
      Route(probe.result, transform, Demux(s[probe.consumed..], capacity, numStreams, transform))
  }

  /**
   * Where the loop stops: with OK exactly at an incomplete packet, with
   * INVAL only at an over-long header.
   */
  lemma {:induction false} DemuxStopsAt(s: seq<byte>, capacity: nat, numStreams: int, transform: seq<byte> -> seq<byte>)
    requires capacity > 0
    ensures var d := Demux(s, capacity, numStreams, transform);
      (d.status == OK <==> Incomplete(d.rest, numStreams)) &&
      (d.status == INVAL ==> numStreams != 1 && Decoding(d.rest).Overflow?)
    decreases |s|
  {
    var probe := ParseFrame(s, capacity, numStreams);
    match probe.result
    case Again =>
    case Malformed =>
    case TooSmall(size, _) =>
      RetryFits(s, capacity, numStreams);
      var p := ParseFrame(s, size, numStreams);
      DemuxStopsAt(s[p.consumed..], size, numStreams, transform);
    case Frame(_, _) =>
      DemuxStopsAt(s[probe.consumed..], capacity, numStreams, transform);
  }

  /** A packet as an encoder's caller hands it in: its bytes and its stream type. */
  datatype Packet = Packet(payload: seq<byte>, streamType: int)

  /** The bytes an encoder appends for a sequence of packets, in order. */
  function Stream(ps: seq<Packet>, numStreams: int): seq<byte>
  {
    if ps == [] then [] else FrameBytes(ps[0].payload, ps[0].streamType, numStreams) + Stream(ps[1..], numStreams)
  }

  /** The converted payloads of the packets that arrive as audio (the stream bit clear). */
  function AudioOf(ps: seq<Packet>, transform: seq<byte> -> seq<byte>): seq<byte>
  {
    if ps == [] then []
    else (if ps[0].streamType % 2 == STREAM_AUDIO then transform(ps[0].payload) else []) + AudioOf(ps[1..], transform)
  }

  /** The payloads of the packets that arrive on the side channel (the stream bit set). */
  function SideOf(ps: seq<Packet>): seq<byte>
  {
    if ps == [] then []
    else (if ps[0].streamType % 2 == STREAM_AUDIO then [] else ps[0].payload) + SideOf(ps[1..])
  }

  /** Every payload is small enough for its length to survive the header shift. */
  predicate Framable(ps: seq<Packet>)
  {
    forall i :: 0 <= i < |ps| ==> |ps[i].payload| < TWO_POW_62
  }

  /**
   * With two streams, decoding what an encoder wrote recovers every packet:
   * the converted audio payloads in order on the audio output, the side
   * payloads in order on the side output, whatever the scratch area's
   * starting size.  A trailing packet not yet complete stays buffered and
   * the call succeeds; a trailing over-long header stops it with INVAL.
   */
  lemma {:induction false} DemuxStream(ps: seq<Packet>, tail: seq<byte>, capacity: nat, numStreams: int,
                                      transform: seq<byte> -> seq<byte>)
    requires numStreams != 1 && capacity > 0 && Framable(ps)
    requires Incomplete(tail, numStreams) || Decoding(tail).Overflow?
    ensures Demux(Stream(ps, numStreams) + tail, capacity, numStreams, transform)
         == Demuxed(if Incomplete(tail, numStreams) then OK else INVAL, AudioOf(ps, transform), SideOf(ps), tail)
    decreases |ps|
  {
    if ps == [] {
      assert Stream(ps, numStreams) + tail == tail;
      DemuxStops(tail, capacity, numStreams, transform);
    } else {
      var p := ps[0];
      var more := Stream(ps[1..], numStreams) + tail;
      assert Stream(ps, numStreams) + tail == FrameBytes(p.payload, p.streamType, numStreams) + more;
      assert Framable(ps[1..]) by {
        forall i | 0 <= i < |ps[1..]|
          ensures |ps[1..][i].payload| < TWO_POW_62
        {
          assert ps[1..][i] == ps[i + 1];
        }
      }
      var cap := Max(capacity, |p.payload|);
      DemuxStep(p.payload, p.streamType, more, capacity, numStreams, transform);
      DemuxStream(ps[1..], tail, cap, numStreams, transform);
      assert AudioOf(ps, transform) == (if p.streamType % 2 == STREAM_AUDIO then transform(p.payload) else []) + AudioOf(ps[1..], transform);
      assert SideOf(ps) == (if p.streamType % 2 == STREAM_AUDIO then [] else p.payload) + SideOf(ps[1..]);
    }
  }

  /** Input that does not start with a whole packet is left alone: OK when incomplete, INVAL when malformed. */
  lemma DemuxStops(s: seq<byte>, capacity: nat, numStreams: int, transform: seq<byte> -> seq<byte>)
    requires numStreams != 1 && capacity > 0
    requires Incomplete(s, numStreams) || Decoding(s).Overflow?
    ensures Demux(s, capacity, numStreams, transform)
         == Demuxed(if Incomplete(s, numStreams) then OK else INVAL, [], [], s)
  {
    var probe := ParseFrame(s, capacity, numStreams);
    assert probe.result.Again? || probe.result.Malformed?;
  }

  /**
   * A written packet at the front is delivered and the loop goes on behind
   * it, with the scratch area grown to the payload when it was smaller.
   */
  lemma DemuxStep(payload: seq<byte>, streamType: int, more: seq<byte>, capacity: nat, numStreams: int,
                  transform: seq<byte> -> seq<byte>)
    requires numStreams != 1 && capacity > 0 && |payload| < TWO_POW_62
    ensures Demux(FrameBytes(payload, streamType, numStreams) + more, capacity, numStreams, transform)
         == Route(Frame(payload, streamType % 2), transform, Demux(more, Max(capacity, |payload|), numStreams, transform))
  {
    var s := FrameBytes(payload, streamType, numStreams) + more;
    var n := |FrameBytes(payload, streamType, numStreams)|;
    assert s[n..] == more;
    if |payload| <= capacity {
      Frame.RoundTrip(payload, streamType, numStreams, more, capacity);
    } else {
      ProbeTooSmall(payload, streamType, numStreams, more, capacity);
      Frame.RoundTrip(payload, streamType, numStreams, more, |payload|);
    }
  }

  /** A conversion that maps every input byte on its own, as the PCM and G.711 decoders do. */
  function Bytewise(f: byte -> seq<byte>, s: seq<byte>): seq<byte>
  {
    if s == [] then [] else f(s[0]) + Bytewise(f, s[1..])
  }

  lemma {:induction false} BytewiseAppend(f: byte -> seq<byte>, a: seq<byte>, b: seq<byte>)
    ensures Bytewise(f, a + b) == Bytewise(f, a) + Bytewise(f, b)
    decreases |a|
  {
    if a != [] {
      assert (a + b)[1..] == a[1..] + b;
      BytewiseAppend(f, a[1..], b);
    } else {
      assert a + b == b;
    }
  }

  /**
   * With one stream nothing is framed: everything buffered is taken as
   * audio, in chunks no larger than the scratch area, and nothing is left.
   * For a conversion that maps each byte on its own the output is the
   * conversion of the whole input.
   */
  lemma {:induction false} DemuxPassthrough(s: seq<byte>, capacity: nat, transform: seq<byte> -> seq<byte>,
                                            f: byte -> seq<byte>)
    requires capacity > 0
    requires forall x :: transform(x) == Bytewise(f, x)
    ensures Demux(s, capacity, 1, transform) == Demuxed(OK, Bytewise(f, s), [], [])
    decreases |s|
  {
    if s != [] {
      var n := Min(|s|, capacity);
      PassthroughStep(s, capacity, transform);
      DemuxPassthrough(s[n..], capacity, transform, f);
      BytewiseAppend(f, s[..n], s[n..]);
    }
  }

  /** With one stream, the first chunk of at most `capacity` bytes is delivered as audio. */
  lemma PassthroughStep(s: seq<byte>, capacity: nat, transform: seq<byte> -> seq<byte>)
    requires capacity > 0 && s != []
    ensures var n := Min(|s|, capacity);
      s[..n] + s[n..] == s &&
      Demux(s, capacity, 1, transform)
      == Route(Frame.Frame(s[..n], STREAM_AUDIO), transform, Demux(s[n..], capacity, 1, transform))
  {
    var n := Min(|s|, capacity);
    assert s[..n] + s[n..] == s;
    PassthroughTakesAll(s, capacity);
  }

  /** The loop state after some packets: what has been delivered in front of what the rest yields. */
  function After(audio: seq<byte>, side: seq<byte>, d: Demuxed): Demuxed
  {
    d.(audio := audio + d.audio, side := side + d.side)
  }

  /** Delivering one more packet moves it from what remains to what has been delivered. */
  lemma AfterRoute(audio: seq<byte>, side: seq<byte>, f: FrameRead, transform: seq<byte> -> seq<byte>, d: Demuxed)
    requires f.Frame?
    ensures f.streamType == STREAM_AUDIO ==>
      After(audio, side, Route(f, transform, d)) == After(audio + transform(f.payload), side, d)
    ensures f.streamType != STREAM_AUDIO ==>
      After(audio, side, Route(f, transform, d)) == After(audio, side + f.payload, d)
  {
    if f.streamType == STREAM_AUDIO {
      assert audio + (transform(f.payload) + d.audio) == (audio + transform(f.payload)) + d.audio;
    } else {
      assert side + (f.payload + d.side) == (side + f.payload) + d.side;
    }
  }

  /*
   * Concatenation facts kept out of the method bodies: proved here they
   * are used as equations, where asking for them inline would make the
   * verifier compare the sequences element by element.
   */
  lemma AppendAssoc(a: seq<byte>, b: seq<byte>, c: seq<byte>)
    ensures (a + b) + c == a + (b + c)
  {
  }

  lemma AppendEmpty(a: seq<byte>)
    ensures a + [] == a
  {
  }

  /** Once the rest yields nothing more, the outcome is what has been delivered. */
  lemma AfterStop(audio: seq<byte>, side: seq<byte>, d: Demuxed)
    requires d.audio == [] && d.side == []
    ensures After(audio, side, d) == d.(audio := audio, side := side)
  {
    assert audio + [] == audio && side + [] == side;
  }

  /**
   * One turn of the decode loop: the next packet is read into a scratch
   * area of `capacity` bytes; when it reports a larger size the area grows
   * to exactly that size and the packet is read again.  On OK the packet
   * has been taken out and the loop goes on with area `newCapacity`.
   */
  method NextFrame(inputBuf: MuxBuffer, capacity: nat, numStreams: int, ghost transform: seq<byte> -> seq<byte>)
    returns (r: int, payload: seq<byte>, streamType: int, newCapacity: nat)
    requires inputBuf.Valid() && capacity > 0
    modifies inputBuf
    ensures inputBuf.Valid() && newCapacity > 0
    ensures var s := old(inputBuf.Unread());
      (r != OK ==> inputBuf.Unread() == s && Demux(s, capacity, numStreams, transform)
                                           == Demuxed(if r == AGAIN then OK else r, [], [], s)) &&
      (r == OK ==> |inputBuf.Unread()| < |s| &&
                   Demux(s, capacity, numStreams, transform)
                   == Route(Frame.Frame(payload, streamType), transform, Demux(inputBuf.Unread(), newCapacity, numStreams, transform)))
  {
    ghost var s := inputBuf.Unread();
    newCapacity := capacity;
    var frameSize;
    r, payload, frameSize, streamType := ReadFrame(inputBuf, capacity, numStreams);
    ghost var probe := ParseFrame(s, capacity, numStreams);
    if r == INVAL && frameSize > capacity {
      assert probe.result.TooSmall?;
      RetryFits(s, capacity, numStreams);
      newCapacity := frameSize;
      r, payload, frameSize, streamType := ReadFrame(inputBuf, newCapacity, numStreams);
    }
  }

  /** Appends a packet's payload to the output its stream type selects, audio converted first. */
  method Deliver(audio: MuxBuffer, side: MuxBuffer, payload: seq<byte>, streamType: int,
                 transform: seq<byte> -> seq<byte>)
    requires audio.Valid() && side.Valid() && audio != side
    modifies audio, side
    ensures audio.Valid() && side.Valid()
    ensures streamType == STREAM_AUDIO ==>
      audio.Unread() == old(audio.Unread()) + transform(payload) && side.Unread() == old(side.Unread())
    ensures streamType != STREAM_AUDIO ==>
      audio.Unread() == old(audio.Unread()) && side.Unread() == old(side.Unread()) + payload
  {
    var written;
    if streamType == STREAM_AUDIO {
      written := audio.Write(transform(payload));
    } else {
      written := side.Write(payload);
    }
  }

  /**
   * The decode entry of the framing adapters: the input is appended to the
   * adapter's input buffer, then packets are taken out as Demux describes,
   * starting from a scratch area of `initialCapacity` bytes.
   */
  method Run(inputBuf: MuxBuffer, audio: MuxBuffer, side: MuxBuffer, input: seq<byte>,
             initialCapacity: nat, numStreams: int, transform: seq<byte> -> seq<byte>)
    returns (r: int)
    requires inputBuf.Valid() && audio.Valid() && side.Valid()
    requires inputBuf != audio && inputBuf != side && audio != side
    requires initialCapacity > 0
    modifies inputBuf, audio, side
    ensures inputBuf.Valid() && audio.Valid() && side.Valid()
    ensures var d := Demux(old(inputBuf.Unread()) + input, initialCapacity, numStreams, transform);
      r == d.status && inputBuf.Unread() == d.rest &&
      audio.Unread() == old(audio.Unread()) + d.audio && side.Unread() == old(side.Unread()) + d.side
  {
    var written := inputBuf.Write(input);
    ghost var s0, audio0, side0 := inputBuf.Unread(), audio.Unread(), side.Unread();
    ghost var d0 := Demux(s0, initialCapacity, numStreams, transform);
    var capacity := initialCapacity;
    while true
      invariant inputBuf.Valid() && audio.Valid() && side.Valid() && capacity > 0
      invariant After(audio0, side0, d0)
             == After(audio.Unread(), side.Unread(), Demux(inputBuf.Unread(), capacity, numStreams, transform))
      decreases |inputBuf.Unread()|
    {
      r, capacity := Turn(inputBuf, audio, side, capacity, numStreams, transform);
      if r != OK {
        break;
      }
    }
    AfterStop(audio.Unread(), side.Unread(), Demux(inputBuf.Unread(), capacity, numStreams, transform));
    if r == AGAIN {
      r := OK;
    }
  }

  /**
   * One turn of the decode loop: the next packet is taken out of the input
   * and delivered.  Delivered output followed by what the rest of the input
   * yields stays the same; AGAIN or an error stops the loop with nothing
   * taken out.
   */
  method Turn(inputBuf: MuxBuffer, audio: MuxBuffer, side: MuxBuffer,
              capacity: nat, numStreams: int, transform: seq<byte> -> seq<byte>)
    returns (r: int, newCapacity: nat)
    requires inputBuf.Valid() && audio.Valid() && side.Valid() && capacity > 0
    requires inputBuf != audio && inputBuf != side && audio != side
    modifies inputBuf, audio, side
    ensures inputBuf.Valid() && audio.Valid() && side.Valid() && newCapacity > 0
    ensures r == OK ==> |inputBuf.Unread()| < |old(inputBuf.Unread())|
    ensures After(old(audio.Unread()), old(side.Unread()), Demux(old(inputBuf.Unread()), capacity, numStreams, transform))
         == After(audio.Unread(), side.Unread(), Demux(inputBuf.Unread(), newCapacity, numStreams, transform))
    ensures r != OK ==> Demux(inputBuf.Unread(), newCapacity, numStreams, transform)
                        == Demuxed(if r == AGAIN then OK else r, [], [], inputBuf.Unread())
  {
    var payload, streamType;
    r, payload, streamType, newCapacity := NextFrame(inputBuf, capacity, numStreams, transform);
    if r != OK {
      newCapacity := capacity;
      return;
    }
    ghost var rest := Demux(inputBuf.Unread(), newCapacity, numStreams, transform);
    AfterRoute(audio.Unread(), side.Unread(), Frame.Frame(payload, streamType), transform, rest);
    Deliver(audio, side, payload, streamType, transform);
  }

  /**
   * The read entry of the framing adapters: decoded audio is handed out
   * first, side data only once no audio is waiting, and AGAIN (nothing
   * written) when both are empty.
   */
  method ReadDecoded(audio: MuxBuffer, side: MuxBuffer, outputSize: nat)
    returns (r: int, output: seq<byte>, streamType: int)
    requires audio.Valid() && side.Valid() && audio != side
    modifies audio, side
    ensures audio.Valid() && side.Valid()
    ensures old(audio.Unread()) != [] ==>
      r == OK && streamType == STREAM_AUDIO &&
      output == old(audio.Unread())[..Min(outputSize, |old(audio.Unread())|)] &&
      audio.Unread() == old(audio.Unread())[|output|..] && side.Unread() == old(side.Unread())
    ensures old(audio.Unread()) == [] && old(side.Unread()) != [] ==>
      r == OK && streamType == STREAM_SIDE_CHANNEL &&
      output == old(side.Unread())[..Min(outputSize, |old(side.Unread())|)] &&
      audio.Unread() == [] && side.Unread() == old(side.Unread())[|output|..]
    ensures old(audio.Unread()) == [] && old(side.Unread()) == [] ==>
      r == AGAIN && output == [] && audio.Unread() == [] && side.Unread() == []
  {
    streamType := STREAM_AUDIO;
    ghost var sideBefore := side.Unread();
    var ret, bytes := audio.Read(outputSize);
    if ret == OK {
      return OK, bytes, STREAM_AUDIO;
    }
    assert side.Unread() == sideBefore && audio.Unread() == [];
    ret, bytes := side.Read(outputSize);
    if ret == OK {
      return OK, bytes, STREAM_SIDE_CHANNEL;
    }
    r, output := AGAIN, [];
  }
}
