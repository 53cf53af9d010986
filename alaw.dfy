/**
 * G.711 A-law (src/codec_alaw.c): a 16-bit sample becomes one byte
 * `seeemmmm` (sign, segment, four mantissa bits) with every other bit
 * inverted by the 0x55 mask; decoding gives the midpoint of the
 * quantisation step the byte names.
 */
module Alaw {
  import opened Types
  import opened Bits
  import Frame
  import opened Buffer
  import Demux

  /** Magnitudes above this are clamped before companding. */
  const CLIP: nat := 32635

  /** The transmission mask applied to every A-law byte. */
  const MASK: nat := 0x55

  /** |pcm| clamped to CLIP, for every sample but -32768. */
  function ClippedMagnitude(pcm: int16): (m: nat)
    requires pcm != -32768
    ensures m <= CLIP
  {
    Min(if pcm < 0 then -pcm else pcm, CLIP)
  }

  /**
   * The companded byte before masking.  A negative sample sets the sign
   * bit.  -32768 negates to itself in 16 bits, so its magnitude goes
   * through the small-segment branch as -32768 >> 4 = -2048, whose low
   * byte is empty: only the sign bit is left.
   */
  function Compress(pcm: int16): (c: byte)
    ensures c >= 128 <==> pcm < 0
  {
    if pcm == -32768 then 128
    else
      var mag := ClippedMagnitude(pcm);
      var e := Segment(mag);
      (if pcm < 0 then 128 else 0) + 16 * e + (if e == 0 then mag / 16 else (mag / Pow2(e + 3)) % 16)
  }

  /** alaw_encode_sample: the compressed byte with the mask applied. */
  function Encode(pcm: int16): (a: byte)
  {
    XorByte(Compress(pcm), MASK);
    Xor(Compress(pcm), MASK)
  }

  /** Removing the mask from an encoded sample gives its compressed byte. */
  lemma UnmaskEncode(pcm: int16)
    ensures Xor(Encode(pcm), MASK) == Compress(pcm)
  {
    XorTwice(Compress(pcm), MASK);
  }

  /**
   * The magnitude a segment and mantissa stand for: the middle of the
   * step of inputs that compress to them.
   */
  function Magnitude(exponent: nat, mantissa: nat): (r: nat)
    requires exponent < 8 && mantissa < 16
    ensures 8 <= r <= 32256
  {
    if exponent == 0 then 16 * mantissa + 8
    else
      ScaledBound(exponent, mantissa);
      (16 * mantissa + 264) * Pow2(exponent - 1)
  }

  lemma ScaledBound(exponent: nat, mantissa: nat)
    requires 1 <= exponent < 8 && mantissa < 16
    ensures (16 * mantissa + 264) * Pow2(exponent - 1) <= 32256
  {
    Pow2Monotone(exponent - 1, 6);
    Pow2Values();
    MulLe(16 * mantissa + 264, 504, Pow2(exponent - 1));
    MulLe(Pow2(exponent - 1), 64, 504);
  }

  /** A magnitude lies in its own segment and keeps its mantissa. */
  lemma MagnitudeFields(exponent: nat, mantissa: nat)
    requires exponent < 8 && mantissa < 16
    ensures var r := Magnitude(exponent, mantissa);
      && (exponent == 0 ==> r < 256 && r / 16 == mantissa)
      && (exponent > 0 ==> 128 * Pow2(exponent) <= r < 256 * Pow2(exponent))
      && (exponent > 0 ==> (r / Pow2(exponent + 3)) % 16 == mantissa)
  {
    if exponent > 0 {
      var p := Pow2(exponent - 1);
      Pow2Add(exponent - 1, 4);
      assert Pow2(exponent + 3) == 16 * p && Pow2(exponent) == 2 * p;
      ScaledFields(mantissa, p);
    }
  }

  lemma ScaledFields(mantissa: nat, p: nat)
    requires mantissa < 16 && p >= 1
    ensures var r := (16 * mantissa + 264) * p;
      256 * p <= r < 512 * p && (r / (16 * p)) % 16 == mantissa
  {
    var r := (16 * mantissa + 264) * p;
    assert r == (mantissa + 16) * (16 * p) + 8 * p;
    DivUnique(r, 16 * p, mantissa + 16, 8 * p);
  }

  /** The sample an unmasked byte `x` stands for: its sign bit, segment and mantissa. */
  function Expand(x: nat): (pcm: int16)
    requires x < 256
    ensures pcm < 0 <==> x >= 128
  {
    var mag: int := Magnitude((x / 16) % 8, x % 16);
    if x >= 128 then -mag else mag
  }

  /** alaw_decode_sample: the mask removed, then the fields expanded. */
  function Decode(a: byte): (pcm: int16)
  {
    XorByte(a, MASK);
    Expand(Xor(a, MASK))
  }

  /** Compressing an expanded byte gives the byte back. */
  lemma CompressExpand(x: nat)
    requires x < 256
    ensures Compress(Expand(x)) == x
  {
    var e := (x / 16) % 8;
    var m := x % 16;
    assert x == 128 * (x / 128) + 16 * e + m;
    var mag := Magnitude(e, m);
    MagnitudeFields(e, m);
    var pcm := Expand(x);
    assert ClippedMagnitude(pcm) == mag;
    if e > 0 {
      SegmentUnique(mag, e);
    }
    CompressFields(pcm, e, m);
  }

  /** Every A-law byte survives decoding and re-encoding unchanged. */
  lemma EncodeDecode(a: byte)
    ensures Encode(Decode(a)) == a
  {
    XorByte(a, MASK);
    var x := Xor(a, MASK);
    CompressExpand(x);
    XorTwice(a, MASK);
  }

  /** Flipping the sign bit of an unmasked byte negates the sample. */
  lemma ExpandSign(x: nat)
    requires x < 128
    ensures Expand(x + 128) == -Expand(x)
  {
    assert ((x + 128) / 16) % 8 == (x / 16) % 8;
  }

  /** The sign bit alone separates a sample from its negation. */
  lemma DecodeSignSymmetry(a: byte)
    ensures Xor(a, 0x80) < 256 && Decode(Xor(a, 0x80)) == -Decode(a)
  {
    FlipTop(a);
    var b: byte := Xor(a, 0x80);
    XorByte(a, MASK);
    var x: byte := Xor(a, MASK);
    XorSwap(a, 0x80, MASK);
    FlipTop(x);
    if x < 128 {
      ExpandSign(x);
    } else {
      ExpandSign(x - 128);
    }
  }

  /** A sample and its negation differ in the sign bit only. */
  lemma EncodeSignSymmetry(pcm: int16)
    requires pcm > 0
    ensures Encode(-pcm) == Xor(Encode(pcm), 0x80)
  {
    Pow2Values();
    var c := Compress(pcm);
    assert Compress(-pcm) == c + 128;
    XorHighBit(c, MASK, 7);
    XorBelow(c, MASK, 7);
    FlipTop(Encode(pcm));
  }

  /**
   * Decoding what a sample encodes to keeps its sign and lands within half
   * a step of its clamped magnitude: at most 8 off below 256 and at most
   * 1/32 of the magnitude above.
   */
  lemma Quantisation(pcm: int16)
    requires pcm != -32768
    ensures var d := Decode(Encode(pcm));
      var mag := ClippedMagnitude(pcm);
      var dmag := if d < 0 then -d else d;
      (d < 0 <==> pcm < 0) &&
      (mag < 256 ==> mag - 8 <= dmag <= mag + 8) &&
      (mag >= 256 ==> 32 * (mag - dmag) <= mag && 32 * (dmag - mag) <= mag)
  {
    var mag := ClippedMagnitude(pcm);
    var e := Segment(mag);
    var m := if e == 0 then mag / 16 else (mag / Pow2(e + 3)) % 16;
    CompressFields(pcm, e, m);
    var c := Compress(pcm);
    PackedFields(if pcm < 0 then 1 else 0, e, m);
    var a := Encode(pcm);
    UnmaskEncode(pcm);
    assert Decode(a) == Expand(c);
    var dmag: int := Magnitude(e, m);
    assert Expand(c) == if pcm < 0 then -dmag else dmag;
    if e > 0 {
      SegmentBracket(mag);
      StepError(mag, e);
    }
  }

  lemma StepError(mag: nat, e: nat)
    requires 1 <= e <= 7 && 128 * Pow2(e) <= mag < 256 * Pow2(e)
    ensures var r := Magnitude(e, (mag / Pow2(e + 3)) % 16);
      32 * (mag - r) <= mag && 32 * (r - mag) <= mag
  {
    var p := Pow2(e - 1);
    Pow2Add(e - 1, 4);
    assert Pow2(e + 3) == 16 * p && Pow2(e) == 2 * p;
    StepErrorBy(mag, p);
    var q := mag / (16 * p);
    assert (mag / Pow2(e + 3)) % 16 == q - 16;
    assert Magnitude(e, q - 16) == (16 * (q - 16) + 264) * p;
  }

  lemma StepErrorBy(mag: nat, p: nat)
    requires p >= 1 && 256 * p <= mag < 512 * p
    ensures var q := mag / (16 * p);
      16 <= q < 32 &&
      var r := (16 * (q - 16) + 264) * p;
      32 * (mag - r) <= mag && 32 * (r - mag) <= mag
  {
    var big := 16 * p;
    QuotientRange(mag, big, 16, 32);
    var q := mag / big;
    var rem := mag % big;
    assert mag == big * q + rem;
    assert big * q == 16 * (q * p);
    assert (16 * (q - 16) + 264) * p == 16 * (q * p) + 8 * p;
  }

  /** The one sample that wraps: -32768 is sent as the code for -8. */
  lemma MostNegative(pcm: int16)
    requires pcm == -32768
    ensures Encode(pcm) == Encode(-8)
    ensures Decode(Encode(pcm)) == -8
  {
    assert Compress(pcm) == 128;
    assert Compress(-8) == 128;
    UnmaskEncode(pcm);
    assert Expand(128) == -8;
    var a := Encode(pcm);
    assert Decode(a) == Expand(Xor(a, MASK));
  }

  /** The sign, segment and mantissa fields of a packed byte read back. */
  lemma PackedFields(sign: nat, e: nat, m: nat)
    requires sign < 2 && e < 8 && m < 16
    ensures var c := 128 * sign + 16 * e + m;
      (c / 16) % 8 == e && c % 16 == m && (c >= 128 <==> sign == 1)
  {
    DivUnique(128 * sign + 16 * e + m, 16, 8 * sign + e, m);
  }

  /** The fields Compress packs for every sample but -32768. */
  lemma CompressFields(pcm: int16, e: nat, m: int)
    requires pcm != -32768
    requires e == Segment(ClippedMagnitude(pcm))
    requires m == if e == 0 then ClippedMagnitude(pcm) / 16 else (ClippedMagnitude(pcm) / Pow2(e + 3)) % 16
    ensures 0 <= m < 16 && Compress(pcm) == (if pcm < 0 then 128 else 0) + 16 * e + m
  {
  }

  /** The byte alaw_encode_sample packs is the compressed sample. */
  lemma PackedIsCompressed(pcm: int16, sign: int, sample: int, exponent: nat, mantissa: int)
    requires sign == if pcm < 0 then 128 else 0
    requires pcm == -32768 ==> sample == -32768
    requires pcm != -32768 ==> sample == ClippedMagnitude(pcm)
    requires sample == -32768 ==> exponent == 0 && mantissa == -2048
    requires sample >= 0 ==> exponent == Segment(sample)
    requires sample >= 0 ==> mantissa == if exponent == 0 then sample / 16 else (sample / Pow2(exponent + 3)) % 16
    ensures (sign + 16 * exponent + mantissa) % 256 == Compress(pcm)
  {
    if pcm != -32768 {
      CompressFields(pcm, exponent, mantissa);
    }
  }

  /**
   * The magnitude alaw_encode_sample works on: the sample negated in 16
   * bits when negative, then clamped.  -32768 stays -32768.
   */
  lemma NegateAndClip(pcm: int16)
    ensures var p := if pcm < 0 then Wrap16(-(pcm as int)) else pcm;
      var c := if p > CLIP as int then CLIP as int else p;
      (pcm == -32768 ==> c == -32768) && (pcm != -32768 ==> c == ClippedMagnitude(pcm))
  {
  }

  /**
   * The exponent loop of alaw_encode_sample: the first exponent from 1 up
   * whose segment reaches past `sample`.
   */
  method SegmentSearch(sample: int) returns (exponent: nat)
    requires 256 <= sample <= CLIP
    ensures 1 <= exponent <= 7 && exponent == Segment(sample)
  {
    Pow2Values();
    exponent := 1;
    while exponent < 8
      invariant 1 <= exponent <= 8
      invariant 128 * Pow2(exponent) <= sample
    {
      if sample < 256 * Pow2(exponent) {
        break;
      }
      exponent := exponent + 1;
    }
    SegmentUnique(sample, exponent);
  }

  /**
   * The exponent and mantissa alaw_encode_sample derives from the clamped
   * magnitude (or from -32768, the one negative value that reaches it).
   */
  method SegmentAndMantissa(sample: int) returns (exponent: nat, mantissa: int)
    requires sample == -32768 || 0 <= sample <= CLIP
    ensures sample == -32768 ==> exponent == 0 && mantissa == -2048
    ensures sample >= 0 ==> exponent == Segment(sample)
    ensures sample >= 0 ==> mantissa == if exponent == 0 then sample / 16 else (sample / Pow2(exponent + 3)) % 16
  {
    if sample < 256 {
      exponent := 0;
      mantissa := sample / 16;
    } else {
      exponent := SegmentSearch(sample);
      mantissa := (sample / Pow2(exponent + 3)) % 16;
    }
  }

  /**
   * alaw_encode_sample as written: the sign taken from bit 15, the
   * negation done in 16 bits, the segment searched for, and the fields
   * or-ed together and truncated to a byte before masking.
   */
  method EncodeSample(pcm: int16) returns (alaw: byte)
    ensures alaw == Encode(pcm)
  {
    var sign := (pcm / 256) % 256 / 128 * 128;
    SignBit(pcm);
    var p: int16 := pcm;
    if sign != 0 {
      p := Wrap16(-(p as int));
    }
    if p > CLIP as int {
      p := CLIP;
    }
    var sample: int := p;
    NegateAndClip(pcm);
    var exponent, mantissa := SegmentAndMantissa(sample);
    // The three fields occupy disjoint bits, so or-ing them adds them.
    var combined: byte := (sign + 16 * exponent + mantissa) % 256;
    PackedIsCompressed(pcm, sign, sample, exponent, mantissa);
    XorByte(combined, MASK);
    alaw := Xor(combined, MASK);
  }

  /** Each sample of a block encoded on its own. */
  function EncodeAll(pcm: seq<int16>): (r: seq<byte>)
    ensures |r| == |pcm|
  {
    seq(|pcm|, i requires 0 <= i < |pcm| => Encode(pcm[i]))
  }

  /** Each byte of a block decoded on its own. */
  function DecodeAll(a: seq<byte>): (r: seq<int16>)
    ensures |r| == |a|
  {
    seq(|a|, i requires 0 <= i < |a| => Decode(a[i]))
  }

  /** A block of A-law bytes read back from its decoding is the block itself. */
  lemma BlockRoundTrip(a: seq<byte>)
    ensures EncodeAll(DecodeAll(a)) == a
  {
    forall i | 0 <= i < |a|
      ensures EncodeAll(DecodeAll(a))[i] == a[i]
    {
      EncodeDecode(a[i]);
    }
  }

  /** The audio bytes a decoder produces for one A-law frame. */
  function DecodedPcm(frame: seq<byte>): (r: seq<byte>)
    ensures |r| == 2 * |frame|
  {
    PcmBytes(DecodeAll(frame))
  }

  /** The conversion loop of alaw_encoder_encode, into a freshly allocated block. */
  method EncodeBlock(pcm: seq<int16>) returns (out: array<byte>)
    ensures fresh(out) && out[..] == EncodeAll(pcm)
  {
    out := new byte[|pcm|];
    var i := 0;
    while i < |pcm|
      invariant 0 <= i <= |pcm|
      invariant out[..i] == EncodeAll(pcm)[..i]
    {
      out[i] := EncodeSample(pcm[i]);
      i := i + 1;
    }
  }

  /** The conversion loop of alaw_decoder_decode, into a freshly allocated block. */
  method DecodeBlock(frame: seq<byte>) returns (out: array<int16>)
    ensures fresh(out) && out[..] == DecodeAll(frame)
  {
    out := new int16[|frame|];
    var i := 0;
    while i < |frame|
      invariant 0 <= i <= |frame|
      invariant out[..i] == DecodeAll(frame)[..i]
    {
      out[i] := Decode(frame[i]);
      i := i + 1;
    }
  }

  /**
   * alaw_encoder_encode: audio input is read as 16-bit samples and written
   * as one frame of A-law bytes, a trailing odd byte left unconsumed;
   * anything else is framed unchanged.  Empty input, or audio shorter than
   * one sample, writes nothing and consumes nothing.
   */
  method EncoderEncode(output: MuxBuffer, input: seq<byte>, streamType: int, numStreams: int)
    returns (r: int, consumed: nat)
    requires output.Valid()
    modifies output
    ensures output.Valid() && r == OK && output.readPos == old(output.readPos)
    ensures |input| < 2 && (|input| == 0 || streamType == STREAM_AUDIO) ==>
      consumed == 0 && output.Unread() == old(output.Unread())
    ensures |input| >= 2 && streamType == STREAM_AUDIO ==>
      consumed == 2 * (|input| / 2) &&
      output.Unread() == old(output.Unread()) + Frame.FrameBytes(EncodeAll(Samples(input)), streamType, numStreams)
    ensures |input| > 0 && streamType != STREAM_AUDIO ==>
      consumed == |input| &&
      output.Unread() == old(output.Unread()) + Frame.FrameBytes(input, streamType, numStreams)
  {
    if |input| == 0 {
      return OK, 0;
    }
    if streamType == STREAM_AUDIO {
      var numSamples := |input| / 2;
      if numSamples == 0 {
        return OK, 0;
      }
      var alawOut := EncodeBlock(Samples(input));
      r := Frame.WriteFrame(output, alawOut[..], streamType, numStreams);
      consumed := numSamples * 2;
    } else {
      r := Frame.WriteFrame(output, input, streamType, numStreams);
      consumed := |input|;
    }
  }

  /** The decoder's conversion of one byte: its sample, as two little-endian bytes. */
  function SampleOf(b: byte): seq<byte>
  {
    SampleBytes(Decode(b))
  }

  /** Decoding a frame converts each byte on its own. */
  lemma {:induction false} DecodedPcmBytewise(frame: seq<byte>)
    ensures DecodedPcm(frame) == Demux.Bytewise(SampleOf, frame)
    decreases |frame|
  {
    if frame != [] {
      DecodedPcmBytewise(frame[1..]);
      assert DecodeAll(frame) == [Decode(frame[0])] + DecodeAll(frame[1..]);
    }
  }

  /**
   * alaw_decoder_decode: the input is buffered and every whole packet
   * taken out as Demux describes, from an 8192-byte scratch area, audio
   * payloads converted sample by sample.  The whole input counts as
   * consumed on success.
   */
  method DecoderDecode(inputBuf: MuxBuffer, audio: MuxBuffer, side: MuxBuffer, input: seq<byte>, numStreams: int)
    returns (r: int, consumed: nat)
    requires inputBuf.Valid() && audio.Valid() && side.Valid()
    requires inputBuf != audio && inputBuf != side && audio != side
    modifies inputBuf, audio, side
    ensures inputBuf.Valid() && audio.Valid() && side.Valid()
    ensures var d := Demux.Demux(old(inputBuf.Unread()) + input, Demux.SCRATCH_CAPACITY, numStreams, DecodedPcm);
      r == d.status && consumed == (if r == OK then |input| else 0) && inputBuf.Unread() == d.rest &&
      audio.Unread() == old(audio.Unread()) + d.audio && side.Unread() == old(side.Unread()) + d.side
  {
    r := Demux.Run(inputBuf, audio, side, input, Demux.SCRATCH_CAPACITY, numStreams, DecodedPcm);
    consumed := if r == OK then |input| else 0;
  }

  /**
   * With one stream every buffered byte is decoded as audio, whatever the
   * scratch area's size: the audio output is the decoding of the whole input.
   */
  lemma PassthroughDecodes(s: seq<byte>, capacity: nat)
    requires capacity > 0
    ensures Demux.Demux(s, capacity, 1, DecodedPcm) == Demux.Demuxed(OK, DecodedPcm(s), [], [])
  {
    forall x {
      DecodedPcmBytewise(x);
    }
    Demux.DemuxPassthrough(s, capacity, DecodedPcm, SampleOf);
    DecodedPcmBytewise(s);
  }
  /**
   * A decoder's audio output for a frame, handed back to the encoder,
   * gives the same frame: A-law survives a decode and re-encode unchanged.
   */
  lemma ReencodeDecoded(frame: seq<byte>)
    ensures EncodeAll(Samples(DecodedPcm(frame))) == frame
  {
    SamplesOfPcmBytes(DecodeAll(frame));
    BlockRoundTrip(frame);
  }
}
