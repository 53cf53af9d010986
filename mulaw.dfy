/**
 * G.711 mu-law (src/codec_mulaw.c): a 16-bit sample, clamped and biased by
 * 0x84, becomes one byte `seeemmmm` (sign, segment, four mantissa bits)
 * with every bit inverted; decoding gives the middle of the quantisation
 * step the byte names, with the bias taken off again.
 */
module Mulaw {
  import opened Types
  import opened Bits
  import Frame
  import opened Buffer
  import Demux

  /** Added to the clamped magnitude so that every segment starts at a power of two. */
  const BIAS: nat := 0x84

  /** Magnitudes above this are clamped before companding. */
  const CLIP: nat := 32635

  /** |pcm| clamped to CLIP, for every sample but -32768. */
  function ClippedMagnitude(pcm: int16): (m: nat)
    requires pcm != -32768
    ensures m <= CLIP
  {
    Min(if pcm < 0 then -pcm else pcm, CLIP)
  }

  /**
   * The companded byte before inversion.  A negative sample sets the sign
   * bit.  -32768 negates to itself in 16 bits; biased it is -32636, whose
   * bits 8 to 14 and whose mantissa bits are all clear, so only the sign
   * bit is left.
   */
  function Compress(pcm: int16): (c: byte)
    ensures c >= 128 <==> pcm < 0
  {
    if pcm == -32768 then 128
    else
      var biased := ClippedMagnitude(pcm) + BIAS;
      var e := Segment(biased);
      (if pcm < 0 then 128 else 0) + 16 * e + (biased / Pow2(e + 3)) % 16
  }

  /** mulaw_encode_sample: the compressed byte with all bits inverted. */
  function Encode(pcm: int16): (b: byte)
  {
    255 - Compress(pcm)
  }

  /**
   * The magnitude a segment and mantissa stand for: the middle of the
   * step of biased inputs that compress to them, less the bias.
   */
  function Magnitude(exponent: nat, mantissa: nat): (r: nat)
    requires exponent < 8 && mantissa < 16
    ensures r <= 32124
  {
    BiasedBound(exponent, mantissa);
    (8 * mantissa + BIAS) * Pow2(exponent) - BIAS
  }

  lemma BiasedBound(exponent: nat, mantissa: nat)
    requires exponent < 8 && mantissa < 16
    ensures BIAS <= (8 * mantissa + BIAS) * Pow2(exponent) <= 32256
  {
    Pow2Monotone(exponent, 7);
    Pow2Values();
    MulLe(1, Pow2(exponent), 8 * mantissa + BIAS);
    MulLe(8 * mantissa + BIAS, 252, Pow2(exponent));
    MulLe(Pow2(exponent), 128, 252);
  }

  /**
   * A biased magnitude lies in its own segment and keeps its mantissa, and
   * only the zero segment and mantissa stand for silence.
   */
  lemma MagnitudeFields(exponent: nat, mantissa: nat)
    requires exponent < 8 && mantissa < 16
    ensures var s := Magnitude(exponent, mantissa) + BIAS;
      s < 32768 && Segment(s) == exponent && (s / Pow2(exponent + 3)) % 16 == mantissa
    ensures Magnitude(exponent, mantissa) == 0 <==> exponent == 0 && mantissa == 0
  {
    var p := Pow2(exponent);
    Pow2Add(exponent, 3);
    Pow2Values();
    assert Pow2(exponent + 3) == 8 * p;
    ScaledFields(mantissa, p);
    var s := Magnitude(exponent, mantissa) + BIAS;
    if exponent > 0 {
      SegmentUnique(s, exponent);
      Pow2Monotone(1, exponent);
    }
  }

  lemma ScaledFields(mantissa: nat, p: nat)
    requires mantissa < 16 && p >= 1
    ensures var s := (8 * mantissa + BIAS) * p;
      128 * p <= s < 256 * p && (s / (8 * p)) % 16 == mantissa
  {
    var s := (8 * mantissa + BIAS) * p;
    assert s == (mantissa + 16) * (8 * p) + 4 * p;
    DivUnique(s, 8 * p, mantissa + 16, 4 * p);
  }

  /** The sample an inverted byte `y` stands for: its sign bit, segment and mantissa. */
  function Expand(y: nat): (pcm: int16)
    requires y < 256
    ensures y < 128 ==> pcm >= 0
    ensures y >= 128 ==> pcm <= 0
  {
    var mag: int := Magnitude((y / 16) % 8, y % 16);
    if y >= 128 then -mag else mag
  }

  /** mulaw_decode_sample: the bits inverted, then the fields expanded. */
  function Decode(b: byte): (pcm: int16)
  {
    Expand(255 - b)
  }

  /** Compressing an expanded byte gives the byte back, except for negative zero. */
  lemma CompressExpand(y: nat)
    requires y < 256 && y != 128
    ensures Compress(Expand(y)) == y
  {
    var e := (y / 16) % 8;
    var m := y % 16;
    assert y == 128 * (y / 128) + 16 * e + m;
    var mag := Magnitude(e, m);
    MagnitudeFields(e, m);
    var pcm := Expand(y);
    assert ClippedMagnitude(pcm) == mag;
    CompressFields(pcm, e, m);
  }

  /**
   * Every mu-law byte but 0x7F survives decoding and re-encoding unchanged.
   * 0x7F is negative zero: it decodes to 0 like 0xFF, and 0 encodes as
   * 0xFF.  Either way the decoded sample is kept.
   */
  lemma EncodeDecode(b: byte)
    ensures Encode(Decode(b)) == if b == 0x7F then 0xFF else b
    ensures Decode(Encode(Decode(b))) == Decode(b)
    ensures b == 0x7F ==> Decode(b) == 0 && Decode(0xFF) == 0
  {
    var y := 255 - b;
    if y != 128 {
      CompressExpand(y);
    } else {
      assert Decode(b) == 0;
      assert Pow2(3) == 8;
      assert Compress(0) == 0;
      assert Decode(0xFF) == 0;
    }
  }

  /** Flipping the sign bit of an inverted byte negates the sample. */
  lemma ExpandSign(y: nat)
    requires y < 128
    ensures Expand(y + 128) == -Expand(y)
  {
    assert ((y + 128) / 16) % 8 == (y / 16) % 8;
  }

  /** The sign bit alone separates a sample from its negation. */
  lemma DecodeSignSymmetry(b: byte)
    ensures Decode((b + 128) % 256) == -Decode(b)
  {
    var c := (b + 128) % 256;
    if b < 128 {
      assert c == b + 128;
      ExpandSign(127 - b);
      assert Decode(c) == Expand(127 - b) && Decode(b) == Expand(127 - b + 128);
    } else {
      assert c == b - 128;
      ExpandSign(255 - b);
      assert Decode(c) == Expand(255 - b + 128) && Decode(b) == Expand(255 - b);
    }
  }

  /** A sample and its negation differ in the sign bit only. */
  lemma EncodeSignSymmetry(pcm: int16)
    requires pcm > 0
    ensures Encode(pcm) >= 128 && Encode(-pcm) == Encode(pcm) - 128
  {
    assert ClippedMagnitude(-pcm) == ClippedMagnitude(pcm);
  }

  /**
   * Decoding what a sample encodes to never flips its sign, and lands
   * within half a step of its clamped magnitude: the error is at most 1/32
   * of the biased magnitude.
   */
  lemma Quantisation(pcm: int16)
    requires pcm != -32768
    ensures var d := Decode(Encode(pcm));
      var mag := ClippedMagnitude(pcm);
      var dmag := if d < 0 then -d else d;
      (pcm < 0 ==> d <= 0) && (pcm >= 0 ==> d >= 0) &&
      32 * (mag - dmag) <= mag + BIAS && 32 * (dmag - mag) <= mag + BIAS
  {
    var s := ClippedMagnitude(pcm) + BIAS;
    var e := Segment(s);
    var m := (s / Pow2(e + 3)) % 16;
    CompressFields(pcm, e, m);
    var c := Compress(pcm);
    PackedFields(if pcm < 0 then 1 else 0, e, m);
    assert Decode(Encode(pcm)) == Expand(c);
    var dmag: int := Magnitude(e, m);
    assert Expand(c) == if pcm < 0 then -dmag else dmag;
    StepError(s, e);
  }

  lemma StepError(s: nat, e: nat)
    requires BIAS <= s < 32768 && e == Segment(s)
    ensures var r := Magnitude(e, (s / Pow2(e + 3)) % 16) + BIAS;
      32 * (s - r) <= s && 32 * (r - s) <= s
  {
    var p := Pow2(e);
    Pow2Add(e, 3);
    Pow2Values();
    assert Pow2(e + 3) == 8 * p;
    SegmentBracket(s);
    assert 128 * p <= s < 256 * p;
    StepErrorBy(s, p);
    var q := s / (8 * p);
    assert (s / Pow2(e + 3)) % 16 == q - 16;
  }

  lemma StepErrorBy(s: nat, p: nat)
    requires p >= 1 && 128 * p <= s < 256 * p
    ensures var q := s / (8 * p);
      16 <= q < 32 &&
      var r := (8 * (q - 16) + BIAS) * p;
      32 * (s - r) <= s && 32 * (r - s) <= s
  {
    var big := 8 * p;
    QuotientRange(s, big, 16, 32);
    var q := s / big;
    var r := (8 * (q - 16) + BIAS) * p;
    assert r == q * big + 4 * p;
  }

  /** The one sample that wraps: -32768 is sent as negative zero and decodes to 0. */
  lemma MostNegative(pcm: int16)
    requires pcm == -32768
    ensures Encode(pcm) == 0x7F
    ensures Decode(Encode(pcm)) == 0
  {
    assert Compress(pcm) == 128;
    assert Expand(128) == 0;
  }

  /** The sign, segment and mantissa fields of a packed byte read back. */
  lemma PackedFields(sign: nat, e: nat, m: nat)
    requires sign < 2 && e < 8 && m < 16
    ensures var c := 128 * sign + 16 * e + m;
      (c / 16) % 8 == e && c % 16 == m && (c >= 128 <==> sign == 1)
  {
    DivUnique(128 * sign + 16 * e + m, 16, 8 * sign + e, m);
  }

  /** The fields Compress packs for every sample but -32768. */
  lemma CompressFields(pcm: int16, e: nat, m: int)
    requires pcm != -32768
    requires e == Segment(ClippedMagnitude(pcm) + BIAS)
    requires m == ((ClippedMagnitude(pcm) + BIAS) / Pow2(e + 3)) % 16
    ensures 0 <= m < 16 && Compress(pcm) == (if pcm < 0 then 128 else 0) + 16 * e + m
  {
  }

  /** The byte mulaw_encode_sample packs, before inversion, is the compressed sample. */
  lemma PackedIsCompressed(pcm: int16, sign: int, sample: int, exponent: nat, mantissa: int)
    requires sign == if pcm < 0 then 128 else 0
    requires pcm == -32768 ==> sample == -32636
    requires pcm != -32768 ==> sample == ClippedMagnitude(pcm) + BIAS
    requires exponent < 8 && mantissa == (sample / Pow2(exponent + 3)) % 16
    requires sample < 0 ==> exponent == 0
    requires sample >= 0 ==> exponent == Segment(sample)
    ensures sign + 16 * exponent + mantissa == Compress(pcm)
  {
    if pcm != -32768 {
      CompressFields(pcm, exponent, mantissa);
    } else {
      assert Pow2(3) == 8;
    }
  }

  /**
   * The biased value mulaw_encode_sample works on: the sample negated in
   * 16 bits when negative, clamped, plus the bias.  -32768 gives -32636.
   */
  lemma NegateAndClip(pcm: int16)
    ensures var p := if pcm < 0 then Wrap16(-(pcm as int)) else pcm;
      var c := if p > CLIP as int then CLIP as int else p;
      (pcm == -32768 ==> c + BIAS == -32636) && (pcm != -32768 ==> c + BIAS == ClippedMagnitude(pcm) + BIAS)
  {
  }

  /** No bit from 8 to 14 is set in -32636 (two's complement), so its search stops at segment 0. */
  lemma WrappedBitClear(e: nat)
    requires 1 <= e <= 7
    ensures (-32636 / Pow2(e + 7)) % 2 == 0
  {
    Pow2Values();
    if e == 1 {
      assert -32636 / 256 == -128;
    } else if e == 2 {
      assert -32636 / 512 == -64;
    } else if e == 3 {
      assert -32636 / 1024 == -32;
    } else if e == 4 {
      assert -32636 / 2048 == -16;
    } else if e == 5 {
      assert -32636 / 4096 == -8;
    } else if e == 6 {
      assert -32636 / 8192 == -4;
    } else {
      assert -32636 / 16384 == -2;
    }
  }

  /**
   * The exponent loop of mulaw_encode_sample: from 7 down, the first
   * exponent whose bit `exponent + 7` is set in the biased sample, or 0.
   */
  method ExponentSearch(sample: int) returns (exponent: nat)
    requires sample == -32636 || BIAS <= sample < 32768
    ensures exponent <= 7
    ensures sample < 0 ==> exponent == 0
    ensures sample >= 0 ==> exponent == Segment(sample)
  {
    Pow2Values();
    exponent := 7;
    while exponent > 0
      invariant exponent <= 7
      invariant sample >= 0 ==> sample < 256 * Pow2(exponent)
    {
      var bit := Pow2(exponent + 7);
      Pow2Add(exponent, 7);
      if sample < 0 {
        WrappedBitClear(exponent);
      } else {
        BitTest(sample, bit);
      }
      if (sample / bit) % 2 == 1 {
        SegmentUnique(sample, exponent);
        return;
      }
      exponent := exponent - 1;
      Pow2Add(exponent, 1);
    }
  }

  /**
   * mulaw_encode_sample as written: the sign taken from bit 15, the
   * negation done in 16 bits, the bias added, the segment searched for,
   * and the fields or-ed together and inverted.
   */
  method EncodeSample(pcm: int16) returns (mulaw: byte)
    ensures mulaw == Encode(pcm)
  {
    var sign := (pcm / 256) % 256 / 128 * 128;
    SignBit(pcm);
    var p: int16 := pcm;
    if sign != 0 {
      p := Wrap16(-(p as int));
    }
    if p > CLIP as int {
      p := CLIP;
    }
    var sample: int := p + BIAS;
    NegateAndClip(pcm);
    var exponent := ExponentSearch(sample);
    var mantissa := (sample / Pow2(exponent + 3)) % 16;
    PackedIsCompressed(pcm, sign, sample, exponent, mantissa);
    // The three fields occupy disjoint bits, so or-ing them adds them; `~`
    // on a value below 256, truncated to a byte, subtracts it from 255.
    mulaw := 255 - (sign + 16 * exponent + mantissa);
  }

  /** Each sample of a block encoded on its own. */
  function EncodeAll(pcm: seq<int16>): (r: seq<byte>)
    ensures |r| == |pcm|
  {
    seq(|pcm|, i requires 0 <= i < |pcm| => Encode(pcm[i]))
  }

  /** Each byte of a block decoded on its own. */
  function DecodeAll(b: seq<byte>): (r: seq<int16>)
    ensures |r| == |b|
  {
    seq(|b|, i requires 0 <= i < |b| => Decode(b[i]))
  }

  /**
   * Re-encoding a decoded block gives the block back with every negative
   * zero made positive, and decodes to the same samples again.
   */
  lemma BlockRoundTrip(b: seq<byte>)
    ensures var again := EncodeAll(DecodeAll(b));
      (forall i :: 0 <= i < |b| ==> again[i] == if b[i] == 0x7F then 0xFF else b[i]) &&
      DecodeAll(again) == DecodeAll(b)
  {
    var again := EncodeAll(DecodeAll(b));
    forall i | 0 <= i < |b|
      ensures again[i] == (if b[i] == 0x7F then 0xFF else b[i]) && DecodeAll(again)[i] == DecodeAll(b)[i]
    {
      EncodeDecode(b[i]);
    }
  }

  /** The audio bytes a decoder produces for one mu-law frame. */
  function DecodedPcm(frame: seq<byte>): (r: seq<byte>)
    ensures |r| == 2 * |frame|
  {
    PcmBytes(DecodeAll(frame))
  }

  /** The conversion loop of mulaw_encoder_encode, into a freshly allocated block. */
  method EncodeBlock(pcm: seq<int16>) returns (out: array<byte>)
    ensures fresh(out) && out[..] == EncodeAll(pcm)
  {
    out := new byte[|pcm|];
    var i := 0;
    while i < |pcm|
      invariant 0 <= i <= |pcm|
      invariant out[..i] == EncodeAll(pcm)[..i]
    {
      out[i] := EncodeSample(pcm[i]);
      i := i + 1;
    }
  }

  /** The conversion loop of mulaw_decoder_decode, into a freshly allocated block. */
  method DecodeBlock(frame: seq<byte>) returns (out: array<int16>)
    ensures fresh(out) && out[..] == DecodeAll(frame)
  {
    out := new int16[|frame|];
    var i := 0;
    while i < |frame|
      invariant 0 <= i <= |frame|
      invariant out[..i] == DecodeAll(frame)[..i]
    {
      out[i] := Decode(frame[i]);
      i := i + 1;
    }
  }

  /**
   * mulaw_encoder_encode: audio input is read as 16-bit samples and written
   * as one frame of mu-law bytes, a trailing odd byte left unconsumed;
   * anything else is framed unchanged.  Empty input, or audio shorter than
   * one sample, writes nothing and consumes nothing.
   */
  method EncoderEncode(output: MuxBuffer, input: seq<byte>, streamType: int, numStreams: int)
    returns (r: int, consumed: nat)
    requires output.Valid()
    modifies output
    ensures output.Valid() && r == OK && output.readPos == old(output.readPos)
    ensures |input| < 2 && (|input| == 0 || streamType == STREAM_AUDIO) ==>
      consumed == 0 && output.Unread() == old(output.Unread())
    ensures |input| >= 2 && streamType == STREAM_AUDIO ==>
      consumed == 2 * (|input| / 2) &&
      output.Unread() == old(output.Unread()) + Frame.FrameBytes(EncodeAll(Samples(input)), streamType, numStreams)
    ensures |input| > 0 && streamType != STREAM_AUDIO ==>
      consumed == |input| &&
      output.Unread() == old(output.Unread()) + Frame.FrameBytes(input, streamType, numStreams)
  {
    if |input| == 0 {
      return OK, 0;
    }
    if streamType == STREAM_AUDIO {
      var numSamples := |input| / 2;
      if numSamples == 0 {
        return OK, 0;
      }
      var mulawOut := EncodeBlock(Samples(input));
      r := Frame.WriteFrame(output, mulawOut[..], streamType, numStreams);
      consumed := numSamples * 2;
    } else {
      r := Frame.WriteFrame(output, input, streamType, numStreams);
      consumed := |input|;
    }
  }

  /** The decoder's conversion of one byte: its sample, as two little-endian bytes. */
  function SampleOf(b: byte): seq<byte>
  {
    SampleBytes(Decode(b))
  }

  /** Decoding a frame converts each byte on its own. */
  lemma {:induction false} DecodedPcmBytewise(frame: seq<byte>)
    ensures DecodedPcm(frame) == Demux.Bytewise(SampleOf, frame)
    decreases |frame|
  {
    if frame != [] {
      DecodedPcmBytewise(frame[1..]);
      assert DecodeAll(frame) == [Decode(frame[0])] + DecodeAll(frame[1..]);
    }
  }

  /**
   * mulaw_decoder_decode: the input is buffered and every whole packet
   * taken out as Demux describes, from an 8192-byte scratch area, audio
   * payloads converted sample by sample.  The whole input counts as
   * consumed on success.
   */
  method DecoderDecode(inputBuf: MuxBuffer, audio: MuxBuffer, side: MuxBuffer, input: seq<byte>, numStreams: int)
    returns (r: int, consumed: nat)
    requires inputBuf.Valid() && audio.Valid() && side.Valid()
    requires inputBuf != audio && inputBuf != side && audio != side
    modifies inputBuf, audio, side
    ensures inputBuf.Valid() && audio.Valid() && side.Valid()
    ensures var d := Demux.Demux(old(inputBuf.Unread()) + input, Demux.SCRATCH_CAPACITY, numStreams, DecodedPcm);
      r == d.status && consumed == (if r == OK then |input| else 0) && inputBuf.Unread() == d.rest &&
      audio.Unread() == old(audio.Unread()) + d.audio && side.Unread() == old(side.Unread()) + d.side
  {
    r := Demux.Run(inputBuf, audio, side, input, Demux.SCRATCH_CAPACITY, numStreams, DecodedPcm);
    consumed := if r == OK then |input| else 0;
  }

  /**
   * With one stream every buffered byte is decoded as audio, whatever the
   * scratch area's size: the audio output is the decoding of the whole input.
   */
  lemma PassthroughDecodes(s: seq<byte>, capacity: nat)
    requires capacity > 0
    ensures Demux.Demux(s, capacity, 1, DecodedPcm) == Demux.Demuxed(OK, DecodedPcm(s), [], [])
  {
    forall x {
      DecodedPcmBytewise(x);
    }
    Demux.DemuxPassthrough(s, capacity, DecodedPcm, SampleOf);
    DecodedPcmBytewise(s);
  }
  /**
   * A decoder's audio output for a frame, handed back to the encoder, gives
   * the same frame except that negative zero (0x7F) comes back as 0xFF, and
   * decoding that again gives the same audio.
   */
  lemma ReencodeDecoded(frame: seq<byte>)
    ensures var again := EncodeAll(Samples(DecodedPcm(frame)));
      |again| == |frame| &&
      (forall i :: 0 <= i < |frame| ==> again[i] == if frame[i] == 0x7F then 0xFF else frame[i]) &&
      DecodedPcm(again) == DecodedPcm(frame)
  {
    SamplesOfPcmBytes(DecodeAll(frame));
    BlockRoundTrip(frame);
  }
}
