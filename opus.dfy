/**
 * The parts of the Opus adapter (src/codec_opus.c) that are the
 * adapter's own: the bytes of the two Ogg Opus header packets (section 5
 * of RFC 7845), the parser that reads the identification header back, and
 * the arithmetic by which the encoder cuts its input into whole 20 ms
 * frames.  What libopus makes of a frame, and the Ogg pages libogg builds
 * around the packets, are outside the model: the encoder is a function
 * from a frame's samples to the length libopus reports.
 */
module Opus {
  import opened Types
  import opened Errors
  import Core
  import Bits

  const TWO_POW_31: int := 0x8000_0000
  const TWO_POW_32: int := 0x1_0000_0000

  /** Latin-1 text as bytes. */
  function Ascii(s: string): (b: seq<byte>)
    ensures |b| == |s|
  {
    seq(|s|, i requires 0 <= i < |s| => (s[i] as int) % 256)
  }

  const HEAD_MAGIC: seq<byte> := Ascii("OpusHead")
  const TAGS_MAGIC: seq<byte> := Ascii("OpusTags")
  const VENDOR: seq<byte> := Ascii("muxaudio")

  /** The four bytes of a 32-bit value, least significant first. */
  function U32LE(x: int): (b: seq<byte>)
    ensures |b| == 4
  {
    var u := x % TWO_POW_32;
    [u % 256, (u / 0x100) % 256, (u / 0x1_0000) % 256, u / 0x100_0000]
  }

  /** The unsigned 32-bit value stored little-endian at `at`. */
  function ReadU32LE(b: seq<byte>, at: nat): (x: nat)
    requires at + 4 <= |b|
    ensures x < TWO_POW_32
  {
    b[at] as int + 0x100 * b[at + 1] as int + 0x1_0000 * b[at + 2] as int + 0x100_0000 * b[at + 3] as int
  }

  /** The unsigned 16-bit value stored little-endian at `at`. */
  function ReadU16LE(b: seq<byte>, at: nat): nat
    requires at + 2 <= |b|
  {
    b[at] as int + 0x100 * b[at + 1] as int
  }

  /** A 32-bit pattern read as a C int (two's complement). */
  function Wrap32(x: int): (r: int)
    ensures -TWO_POW_31 <= r < TWO_POW_31
  {
    var u := x % TWO_POW_32;
    if u >= TWO_POW_31 then u - TWO_POW_32 else u
  }

  /**
   * write_opus_header: the 19-byte identification header.  The channel
   * count is stored in one byte (a C conversion to unsigned char); the
   * input sample rate in four, as its 32-bit two's-complement pattern.
   */
  function OpusHead(sampleRate: int, channels: int): (h: seq<byte>)
    ensures |h| == 19 && h[..8] == HEAD_MAGIC
  {
    HEAD_MAGIC + [1, channels % 256, 0, 0] + U32LE(sampleRate) + [0, 0, 0]
  }

  /**
   * write_opus_tags: the 24-byte comment header with vendor "muxaudio"
   * and no user comments.
   */
  function OpusTags(): (t: seq<byte>)
    ensures |t| == 24 && t[..8] == TAGS_MAGIC
  {
    TAGS_MAGIC + U32LE(|VENDOR|) + VENDOR + U32LE(0)
  }

  /** What parse_opus_header reports. */
  datatype HeadInfo = HeadInfo(sampleRate: int, channels: int)

  /**
   * parse_opus_header: a packet shorter than 19 bytes or without the
   * "OpusHead" magic is rejected (-1 in C); otherwise the channel count is
   * byte 9 and the sample rate bytes 12..15, little-endian, read into a C
   * int.
   */
  function ParseOpusHeader(packet: seq<byte>): (r: Option<HeadInfo>)
    ensures r.Some? <==> |packet| >= 19 && packet[..8] == HEAD_MAGIC
    ensures r.Some? ==>
      r.value.channels == packet[9] && 0 <= r.value.channels < 256 &&
      r.value.sampleRate == Wrap32(ReadU32LE(packet, 12))
  {
    if |packet| < 19 then None
    else if packet[..8] != HEAD_MAGIC then None
    else Some(HeadInfo(Wrap32(ReadU32LE(packet, 12)), packet[9]))
  }

  lemma U32RoundTrip(x: int)
    ensures ReadU32LE(U32LE(x), 0) == x % TWO_POW_32
  {
    var u := x % TWO_POW_32;
    var b := U32LE(x);
    assert u == b[0] + 0x100 * (u / 0x100);
    assert u / 0x100 == b[1] + 0x100 * (u / 0x1_0000);
    assert u / 0x1_0000 == b[2] + 0x100 * (u / 0x100_0000);
  }

  lemma WrapOfResidue(x: int)
    requires -TWO_POW_31 <= x < TWO_POW_31
    ensures Wrap32(x % TWO_POW_32) == x
  {
  }

  /**
   * The identification header is read back as written, for every channel
   * count that fits its byte and every sample rate a C int holds.
   */
  lemma HeadRoundTrip(sampleRate: int, channels: int)
    requires -TWO_POW_31 <= sampleRate < TWO_POW_31 && 0 <= channels < 256
    ensures ParseOpusHeader(OpusHead(sampleRate, channels)) == Some(HeadInfo(sampleRate, channels))
  {
    var h := OpusHead(sampleRate, channels);
    assert h[12..16] == U32LE(sampleRate);
    assert ReadU32LE(h, 12) == ReadU32LE(U32LE(sampleRate), 0);
    U32RoundTrip(sampleRate);
    WrapOfResidue(sampleRate);
  }

  /**
   * The identification header's fields, read as section 5.1 of RFC 7845
   * lays them out: version 1, the channel count, no pre-skip, the input
   * sample rate, no output gain, channel mapping family 0.
   */
  lemma HeadFields(sampleRate: int, channels: int)
    ensures var h := OpusHead(sampleRate, channels);
      h[8] == 1 && h[9] == channels % 256 && ReadU16LE(h, 10) == 0 &&
      ReadU32LE(h, 12) == sampleRate % TWO_POW_32 && ReadU16LE(h, 16) == 0 && h[18] == 0
  {
    var h := OpusHead(sampleRate, channels);
    assert h[12..16] == U32LE(sampleRate);
    assert ReadU32LE(h, 12) == ReadU32LE(U32LE(sampleRate), 0);
    U32RoundTrip(sampleRate);
  }

  /**
   * The comment header's fields, as section 5.2 of RFC 7845 lays them
   * out: the vendor string's length, the vendor string, a user comment
   * count of zero.
   */
  lemma TagsFields()
    ensures var t := OpusTags();
      ReadU32LE(t, 8) == |VENDOR| == 8 && t[12..20] == VENDOR && ReadU32LE(t, 20) == 0
  {
    var t := OpusTags();
    assert t[8..12] == U32LE(8);
    assert ReadU32LE(t, 8) == ReadU32LE(U32LE(8), 0);
    U32RoundTrip(8);
    assert t[20..24] == U32LE(0);
    assert ReadU32LE(t, 20) == ReadU32LE(U32LE(0), 0);
    U32RoundTrip(0);
  }

  // ---------------------------------------------------------------------
  // Encoder: whole frames only.
  // ---------------------------------------------------------------------

  /** The rates libopus accepts (opus_sample_rates), and with them the only encoders that exist. */
  const SAMPLE_RATES: seq<int> := [8000, 12000, 16000, 24000, 48000]

  /** The counters of struct opus_encoder_data that the adapter itself keeps. */
  class EncoderData {
    var sampleRate: int
    var numChannels: int
    /** Samples per channel in one 20 ms frame. */
    var frameSize: int
    var packetCount: int
    var granulePos: int
    var haveSideStream: bool

    ghost predicate Valid()
      reads this
    {
      frameSize > 0 && numChannels > 0
    }

    /**
     * The state mux_opus_encoder_init leaves once libopus has accepted the
     * rate and channel count: a frame is 20 ms, nothing encoded yet.
     */
    constructor (sampleRate: int, numChannels: int)
      requires sampleRate in SAMPLE_RATES && (numChannels == 1 || numChannels == 2)
      ensures Valid() && this.sampleRate == sampleRate && this.numChannels == numChannels
      ensures frameSize == sampleRate / 50 && packetCount == 0 && granulePos == 0 && !haveSideStream
    {
      this.sampleRate := sampleRate;
      this.numChannels := numChannels;
      frameSize := sampleRate / 50;
      packetCount, granulePos := 0, 0;
      haveSideStream := false;
    }
  }

  /** The outcome of cutting samples into frames: frames taken, non-empty packets, libopus's code on failure. */
  datatype Packetised = Packetised(status: int, frames: nat, packets: nat, libraryCode: int)

  /**
   * The specification of the frame loop: while a whole frame of
   * interleaved samples remains, libopus encodes it; a negative length is
   * a failure that stops the call, a positive one a packet, zero no
   * packet at all.
   */
  function Packetise(opusLen: seq<int16> -> int, s: seq<int16>, frameLen: nat): (p: Packetised)
    requires frameLen > 0
    ensures p.packets <= p.frames
    ensures p.status == OK || p.status == ENCODE
    decreases |s|
  {
    if |s| < frameLen then Packetised(OK, 0, 0, 0)
    else
      var n := opusLen(s[..frameLen]);
      if n < 0 then Packetised(ENCODE, 0, 0, n)
      else
        var rest := Packetise(opusLen, s[frameLen..], frameLen);
        Packetised(rest.status, rest.frames + 1, rest.packets + (if n > 0 then 1 else 0), rest.libraryCode)
  }

  /**
   * Without a failure every whole frame is taken and nothing else: the
   * frames fill `s` but for less than one frame.
   */
  lemma {:induction false} PacketiseTakesWholeFrames(opusLen: seq<int16> -> int, s: seq<int16>, frameLen: nat)
    requires frameLen > 0
    ensures var p := Packetise(opusLen, s, frameLen);
      p.frames * frameLen <= |s| && (p.status == OK ==> |s| < (p.frames + 1) * frameLen)
    decreases |s|
  {
    if |s| >= frameLen {
      var n := opusLen(s[..frameLen]);
      if n >= 0 {
        PacketiseTakesWholeFrames(opusLen, s[frameLen..], frameLen);
      }
    }
  }

  /**
   * The consumed count of a successful call is the source's
   * (num_samples / frame_size) * frame_size * channels * 2, with
   * num_samples = input_size / 2 / channels: whole frames only.
   */
  lemma ConsumedWholeFrames(opusLen: seq<int16> -> int, input: seq<byte>, frameSize: nat, channels: nat)
    requires frameSize > 0 && channels > 0
    requires Packetise(opusLen, Samples(input), frameSize * channels).status == OK
    ensures var p := Packetise(opusLen, Samples(input), frameSize * channels);
      p.frames * frameSize * channels * 2 == (|input| / 2 / channels) / frameSize * frameSize * channels * 2
  {
    var p := Packetise(opusLen, Samples(input), frameSize * channels);
    PacketiseTakesWholeFrames(opusLen, Samples(input), frameSize * channels);
    FloorOfProduct(|input| / 2, channels, frameSize, p.frames);
  }

  /** k * f * c <= n < (k + 1) * f * c means k == n / c / f. */
  lemma FloorOfProduct(n: nat, c: nat, f: nat, k: nat)
    requires c > 0 && f > 0
    requires k * (f * c) <= n < (k + 1) * (f * c)
    ensures k == n / c / f
  {
    var m := n / c;
    DivBounds(n, c);
    assert (k * f) * c == k * (f * c);
    assert ((k + 1) * f) * c == (k + 1) * (f * c);
    assert k * f <= m by {
      if k * f > m {
        Bits.MulLe(m + 1, k * f, c);
      }
    }
    assert m < (k + 1) * f by {
      if m >= (k + 1) * f {
        Bits.MulLe((k + 1) * f, m, c);
      }
    }
    Bits.QuotientRange(m, f, k, k + 1);
  }

  lemma DivBounds(n: nat, d: nat)
    requires d > 0
    ensures (n / d) * d <= n < (n / d + 1) * d
  {
  }

  /**
   * The audio branch's loop.  `samples` are the caller's interleaved
   * 16-bit samples; each pass takes frame_size samples per channel.  A
   * non-empty packet advances the granule position by one frame and the
   * packet number by one; the Ogg page output is not modelled.
   */
  method EncodeFrames(data: EncoderData, samples: seq<int16>, opusLen: seq<int16> -> int)
    returns (r: int, samplesConsumed: nat, libraryCode: int)
    requires data.Valid()
    modifies data
    ensures data.Valid() && data.frameSize == old(data.frameSize) && data.numChannels == old(data.numChannels)
    ensures data.sampleRate == old(data.sampleRate) && data.haveSideStream == old(data.haveSideStream)
    ensures var p := Packetise(opusLen, samples, data.frameSize * data.numChannels);
      r == p.status && libraryCode == p.libraryCode && samplesConsumed == p.frames * data.frameSize &&
      data.packetCount == old(data.packetCount) + p.packets &&
      data.granulePos == old(data.granulePos) + p.packets * data.frameSize
  {
    var frameSize := data.frameSize;
    var channels := data.numChannels;
    var frameLen := frameSize * channels;
    var numSamples := |samples| / channels;
    ghost var target := Packetise(opusLen, samples, frameLen);
    ghost var count0, granule0 := data.packetCount, data.granulePos;
    ghost var frames: nat := 0;
    ghost var packets: nat := 0;
    samplesConsumed := 0;
    while samplesConsumed + frameSize <= numSamples
      invariant data.frameSize == frameSize && data.numChannels == channels
      invariant data.sampleRate == old(data.sampleRate) && data.haveSideStream == old(data.haveSideStream)
      invariant FrameProgress(data, opusLen, samples, target, count0, granule0, samplesConsumed, frames, packets)
      decreases numSamples - samplesConsumed
    {
      var n;
      n, frames, packets := EncodeTurn(data, samples, opusLen, target, count0, granule0,
                                       samplesConsumed, frames, packets);
      if n < 0 {
        return ENCODE, samplesConsumed, n;
      }
      samplesConsumed := samplesConsumed + frameSize;
    }
    PacketiseStop(opusLen, samples, frameLen, frameSize, channels, frames, frames * frameLen, numSamples);
    r, libraryCode := OK, 0;
  }

  /**
   * The frame loop's invariant: `frames` frames, `packets` of them
   * non-empty, have been encoded, and the rest of the call is Packetise on
   * the samples after them.
   */
  ghost predicate FrameProgress(data: EncoderData, opusLen: seq<int16> -> int, samples: seq<int16>, target: Packetised,
                                count0: int, granule0: int, samplesConsumed: nat, frames: nat, packets: nat)
    reads data
  {
    data.Valid() &&
    samplesConsumed == frames * data.frameSize &&
    frames * (data.frameSize * data.numChannels) <= |samples| &&
    data.packetCount == count0 + packets && data.granulePos == granule0 + packets * data.frameSize &&
    target == After(frames, packets,
                    Packetise(opusLen, samples[frames * (data.frameSize * data.numChannels)..],
                              data.frameSize * data.numChannels))
  }

  /**
   * One pass of the frame loop: libopus encodes the next whole frame.  A
   * negative length ends the call with the remaining specification
   * reporting that failure; otherwise the frame is counted, and a packet
   * with it when the length is positive.
   */
  method EncodeTurn(data: EncoderData, samples: seq<int16>, opusLen: seq<int16> -> int, ghost target: Packetised,
                    ghost count0: int, ghost granule0: int, samplesConsumed: nat, ghost frames: nat, ghost packets: nat)
    returns (n: int, ghost frames': nat, ghost packets': nat)
    requires FrameProgress(data, opusLen, samples, target, count0, granule0, samplesConsumed, frames, packets)
    requires samplesConsumed + data.frameSize <= |samples| / data.numChannels
    modifies data
    ensures data.frameSize == old(data.frameSize) && data.numChannels == old(data.numChannels)
    ensures data.sampleRate == old(data.sampleRate) && data.haveSideStream == old(data.haveSideStream)
    ensures n < 0 ==>
      target == Packetised(ENCODE, frames, packets, n) &&
      data.packetCount == count0 + packets && data.granulePos == granule0 + packets * data.frameSize
    ensures n >= 0 ==>
      FrameProgress(data, opusLen, samples, target, count0, granule0, samplesConsumed + data.frameSize, frames', packets')
  {
    var frameSize := data.frameSize;
    var channels := data.numChannels;
    var frameLen := frameSize * channels;
    var offset := frames * frameLen;
    FrameStep(|samples|, channels, frameSize, frames, |samples| / channels);
    var frame := samples[samplesConsumed * channels..samplesConsumed * channels + frameLen];
    n := opusLen(frame);
    PacketiseStep(opusLen, samples, frameLen, offset, frames, packets);
    frames', packets' := frames + 1, packets;
    if n > 0 {
      Succ(packets, frameSize);
      data.granulePos := data.granulePos + frameSize;
      data.packetCount := data.packetCount + 1;
      packets' := packets + 1;
    }
  }

  /** The bounds of the next frame, and where the one after it starts. */
  lemma FrameStep(total: nat, channels: nat, frameSize: nat, frames: nat, numSamples: nat)
    requires channels > 0 && frameSize > 0 && numSamples == total / channels
    requires frames * frameSize + frameSize <= numSamples
    ensures (frames * frameSize) * channels == frames * (frameSize * channels)
    ensures frames * (frameSize * channels) + frameSize * channels <= total
    ensures (frames + 1) * frameSize == frames * frameSize + frameSize
    ensures (frames + 1) * (frameSize * channels) == frames * (frameSize * channels) + frameSize * channels
  {
    FrameBounds(total, channels, frameSize, frames, numSamples);
    Succ(frames, frameSize);
    Succ(frames, frameSize * channels);
  }

  lemma Succ(a: nat, b: nat)
    ensures (a + 1) * b == a * b + b
  {
  }

  function After(frames: nat, packets: nat, p: Packetised): Packetised
  {
    p.(frames := frames + p.frames, packets := packets + p.packets)
  }

  /** Where the next frame starts and ends, in interleaved samples. */
  lemma FrameBounds(total: nat, channels: nat, frameSize: nat, frames: nat, numSamples: nat)
    requires channels > 0 && frameSize > 0 && numSamples == total / channels
    requires frames * frameSize + frameSize <= numSamples
    ensures (frames * frameSize) * channels == frames * (frameSize * channels)
    ensures frames * (frameSize * channels) + frameSize * channels <= total
  {
    DivBounds(total, channels);
    Bits.MulLe(frames * frameSize + frameSize, numSamples, channels);
    assert (frames * frameSize + frameSize) * channels == frames * (frameSize * channels) + frameSize * channels;
  }

  lemma PacketiseStep(opusLen: seq<int16> -> int, samples: seq<int16>, frameLen: nat, offset: nat,
                      frames: nat, packets: nat)
    requires frameLen > 0 && offset + frameLen <= |samples|
    ensures var n := opusLen(samples[offset..offset + frameLen]);
      var p := After(frames, packets, Packetise(opusLen, samples[offset..], frameLen));
      (n < 0 ==> p == Packetised(ENCODE, frames, packets, n)) &&
      (n >= 0 ==> p == After(frames + 1, packets + (if n > 0 then 1 else 0),
                            Packetise(opusLen, samples[offset + frameLen..], frameLen)))
  {
    var rest := samples[offset..];
    assert rest[..frameLen] == samples[offset..offset + frameLen];
    assert rest[frameLen..] == samples[offset + frameLen..];
  }

  lemma PacketiseStop(opusLen: seq<int16> -> int, samples: seq<int16>, frameLen: nat, frameSize: nat, channels: nat,
                      frames: nat, offset: nat, numSamples: nat)
    requires channels > 0 && frameSize > 0 && frameLen == frameSize * channels && numSamples == |samples| / channels
    requires offset == frames * frameLen && offset <= |samples| && frames * frameSize + frameSize > numSamples
    ensures Packetise(opusLen, samples[offset..], frameLen) == Packetised(OK, 0, 0, 0)
  {
    DivBounds(|samples|, channels);
    Bits.MulLe(numSamples + 1, frames * frameSize + frameSize, channels);
    assert (frames * frameSize + frameSize) * channels == offset + frameLen;
  }

  /**
   * mux_opus_encoder_encode, apart from the Ogg output.  An empty input is
   * a no-op; side-channel input is taken whole (other stream types count
   * as audio); audio is cut into whole frames as Packetise describes, and
   * consumed counts their bytes.  A libopus failure is recorded with its
   * code and message (`strerror` stands for opus_strerror) and returned
   * as ENCODE.
   */
  method EncoderEncode(enc: Core.Encoder, data: EncoderData?, input: seq<byte>, streamType: int,
                       opusLen: seq<int16> -> int, strerror: int -> string)
    returns (r: int, consumed: nat)
    requires data != null ==> data.Valid()
    modifies enc, data
    ensures data != null ==> data.Valid() && data.frameSize == old(data.frameSize)
    ensures data == null || |input| == 0 ==>
      r == (if data == null then INVAL else OK) && consumed == 0 && enc.error == old(enc.error)
    ensures data != null && |input| > 0 && streamType == STREAM_SIDE_CHANNEL ==>
      r == OK && consumed == |input| && data.haveSideStream && enc.error == old(enc.error) &&
      data.packetCount == old(data.packetCount) && data.granulePos == old(data.granulePos)
    ensures data != null && |input| > 0 && streamType != STREAM_SIDE_CHANNEL ==>
      var p := Packetise(opusLen, Samples(input), data.frameSize * data.numChannels);
      r == p.status &&
      data.packetCount == old(data.packetCount) + p.packets &&
      data.granulePos == old(data.granulePos) + p.packets * data.frameSize &&
      (r == OK ==> consumed == p.frames * data.frameSize * data.numChannels * 2 && enc.error == old(enc.error)) &&
      (r == ENCODE ==>
         consumed == 0 &&
         Core.EncoderGetError(enc)
         == Some(Recorded(ENCODE, Some("Opus encoding failed"), Some("libopus"), p.libraryCode,
                          Some(strerror(p.libraryCode)))))
  {
    if data == null {
      return INVAL, 0;
    }
    if |input| == 0 {
      return OK, 0;
    }
    if streamType == STREAM_SIDE_CHANNEL {
      data.haveSideStream := true;
      return OK, |input|;
    }
    var samplesConsumed, code;
    r, samplesConsumed, code := EncodeFrames(data, Samples(input), opusLen);
    if r != OK {
      Core.EncoderSetError(enc, ENCODE, Some("Opus encoding failed"), Some("libopus"), code, Some(strerror(code)));
      return r, 0;
    }
    consumed := samplesConsumed * data.numChannels * 2;
  }
}
