/**
 * The PCM round trip of tests/test_pcm.c, end to end through the public
 * entry points: two packets muxed by an encoder, read out, fed to a
 * decoder and read back stream by stream.
 */
module Scenario {
  import opened Types
  import Core
  import Demux
  import Frame
  import Pcm

  const AUDIO_DATA: seq<byte> := [0x01, 0x02, 0x03, 0x04, 0x05, 0x06, 0x07, 0x08]
  const SIDE_DATA: seq<byte> := [0xAA, 0xBB, 0xCC, 0xDD]

  /** The caller's buffers (muxed_buffer and output_buffer) hold 1024 bytes. */
  const CALLER_BUFFER: nat := 1024

  /** No optional library: PCM is built in regardless. */
  const BARE_BUILD: Core.Build := Core.Build(false, false, false, false, false, false, false, false, false)

  /** What a two-stream encoder writes for an audio packet followed by a side packet. */
  function Muxed(audio: seq<byte>, side: seq<byte>): seq<byte>
  {
    Frame.FrameBytes(audio, STREAM_AUDIO, 2) + Frame.FrameBytes(side, STREAM_SIDE_CHANNEL, 2)
  }

  /** Decoding those bytes returns the audio packet on the audio output and the side packet on the side output. */
  lemma DemuxedPair(audio: seq<byte>, side: seq<byte>)
    requires |audio| < TWO_POW_62 && |side| < TWO_POW_62
    ensures Demux.Demux(Muxed(audio, side), Demux.SCRATCH_CAPACITY, 2, Pcm.Verbatim)
         == Demux.Demuxed(OK, audio, side, [])
  {
    var sideBytes := Frame.FrameBytes(side, STREAM_SIDE_CHANNEL, 2);
    var cap := Max(Demux.SCRATCH_CAPACITY, |audio|);
    Demux.DemuxStep(audio, STREAM_AUDIO, sideBytes, Demux.SCRATCH_CAPACITY, 2, Pcm.Verbatim);
    SideAlone(side, cap);
    Demux.AppendEmpty(audio);
  }

  /** A lone side packet decodes to itself on the side output. */
  lemma SideAlone(side: seq<byte>, cap: nat)
    requires |side| < TWO_POW_62 && cap > 0
    ensures Demux.Demux(Frame.FrameBytes(side, STREAM_SIDE_CHANNEL, 2), cap, 2, Pcm.Verbatim)
         == Demux.Demuxed(OK, [], side, [])
  {
    var sideBytes := Frame.FrameBytes(side, STREAM_SIDE_CHANNEL, 2);
    var cap2 := Max(cap, |side|);
    Demux.DemuxStep(side, STREAM_SIDE_CHANNEL, [], cap, 2, Pcm.Verbatim);
    Demux.AppendEmpty(sideBytes);
    assert Frame.Incomplete([], 2);
    Demux.DemuxStops([], cap2, 2, Pcm.Verbatim);
    var last := Demux.Demux([], cap2, 2, Pcm.Verbatim);
    assert last == Demux.Demuxed(OK, [], [], []);
    Demux.AppendEmpty(side);
  }

  /** An empty buffer's contents followed by new bytes are just those bytes. */
  lemma PrependEmpty(a: seq<byte>)
    ensures [] + a == a
  {
  }

  /** The encoder half: both packets framed, and the muxed output read out whole. */
  method EncodePair(audio: seq<byte>, side: seq<byte>) returns (muxed: seq<byte>)
    requires audio != [] && side != []
    requires |Muxed(audio, side)| <= CALLER_BUFFER
    ensures muxed == Muxed(audio, side)
  {
    var enc := new Core.Encoder();
    var r := Core.EncoderInit(enc, Core.CODEC_PCM, 44100, 2, 2, BARE_BUILD, OK, None, []);
    assert enc.ops == Some(Core.Ops(Core.CODEC_PCM, true, true)) && enc.numStreams == 2;
    assert enc.output.Unread() == [];
    var consumed;
    r, consumed := Core.EncoderEncode(enc, audio, STREAM_AUDIO, OK, None);
    PrependEmpty(Frame.FrameBytes(audio, STREAM_AUDIO, 2));
    r, consumed := Core.EncoderEncode(enc, side, STREAM_SIDE_CHANNEL, OK, None);
    assert enc.output.Unread() == Muxed(audio, side);
    r, muxed := Core.EncoderRead(enc, CALLER_BUFFER, OK);
  }

  /** mux_decoder_new for two-stream PCM: a decoder with its input buffer and both outputs empty. */
  method NewPcmDecoder() returns (dec: Core.Decoder)
    ensures dec.Valid() && dec.ops == Some(Core.Ops(Core.CODEC_PCM, true, true)) && dec.numStreams == 2
    ensures dec.inputBuf != null && dec.inputBuf.Unread() == [] && dec.audio.Unread() == [] && dec.side.Unread() == []
    ensures fresh(dec) && fresh(dec.audio) && fresh(dec.side) && fresh(dec.inputBuf)
  {
    dec := new Core.Decoder();
    var r := Core.DecoderInit(dec, Core.CODEC_PCM, 2, BARE_BUILD, OK, None);
  }

  /** The decoder half: a two-stream PCM decoder that has been fed the muxed bytes. */
  method DecodeMuxed(muxed: seq<byte>, audio: seq<byte>, side: seq<byte>) returns (dec: Core.Decoder)
    requires Demux.Demux(muxed, Demux.SCRATCH_CAPACITY, 2, Pcm.Verbatim) == Demux.Demuxed(OK, audio, side, [])
    ensures dec.Valid() && Core.HasDecoder(dec.ops) && Core.Framing(dec.ops.value.codec)
    ensures dec.audio.Unread() == audio && dec.side.Unread() == side
    ensures fresh(dec.audio) && fresh(dec.side)
  {
    dec := NewPcmDecoder();
    PcmDemux(muxed, audio, side);
    Feed(dec, muxed, audio, side);
  }

  /** One decode call on a fresh two-stream PCM decoder. */
  method Feed(dec: Core.Decoder, muxed: seq<byte>, audio: seq<byte>, side: seq<byte>)
    requires dec.Valid() && dec.ops == Some(Core.Ops(Core.CODEC_PCM, true, true)) && dec.numStreams == 2
    requires dec.inputBuf != null && dec.inputBuf.Unread() == [] && dec.audio.Unread() == [] && dec.side.Unread() == []
    requires Demux.Demux([] + muxed, Demux.SCRATCH_CAPACITY, 2, Core.PayloadTransform(Core.CODEC_PCM))
          == Demux.Demuxed(OK, audio, side, [])
    modifies dec, dec.audio, dec.side, dec.inputBuf
    ensures dec.Valid() && dec.ops == Some(Core.Ops(Core.CODEC_PCM, true, true))
    ensures dec.audio.Unread() == audio && dec.side.Unread() == side
  {
    var r, consumed := Core.DecoderDecode(dec, muxed, OK, None);
    PrependEmpty(audio);
    PrependEmpty(side);
  }

  /** The same packets, seen through the decoder's freshly emptied input buffer. */
  lemma PcmDemux(muxed: seq<byte>, audio: seq<byte>, side: seq<byte>)
    requires Demux.Demux(muxed, Demux.SCRATCH_CAPACITY, 2, Pcm.Verbatim) == Demux.Demuxed(OK, audio, side, [])
    ensures Demux.Demux([] + muxed, Demux.SCRATCH_CAPACITY, 2, Pcm.Verbatim) == Demux.Demuxed(OK, audio, side, [])
  {
    PrependEmpty(muxed);
  }

  /** Two reads from a framing decoder holding one run of audio and one of side data, each small enough to come out whole. */
  method ReadBack(dec: Core.Decoder, audio: seq<byte>, side: seq<byte>)
    returns (audioOut: seq<byte>, audioType: int, sideOut: seq<byte>, sideType: int)
    requires dec.Valid() && Core.HasDecoder(dec.ops) && Core.Framing(dec.ops.value.codec)
    requires dec.audio.Unread() == audio && dec.side.Unread() == side
    requires audio != [] && side != [] && |audio| <= CALLER_BUFFER && |side| <= CALLER_BUFFER
    modifies dec.audio, dec.side
    ensures audioOut == audio && audioType == STREAM_AUDIO
    ensures sideOut == side && sideType == STREAM_SIDE_CHANNEL
  {
    assert Min(CALLER_BUFFER, |audio|) == |audio| && audio[..|audio|] == audio;
    var r;
    r, audioOut, audioType := Core.DecoderRead(dec, CALLER_BUFFER, OK);
    assert dec.audio.Unread() == [] && dec.side.Unread() == side;
    assert Min(CALLER_BUFFER, |side|) == |side| && side[..|side|] == side;
    r, sideOut, sideType := Core.DecoderRead(dec, CALLER_BUFFER, OK);
  }

  /**
   * Two non-empty packets through a two-stream PCM encoder and decoder:
   * the encoder's output is read in one go and decoded, the first read
   * returns exactly the audio packet, tagged audio, and the second exactly
   * the side packet, tagged side channel.
   */
  method TwoStreamRoundTrip(audio: seq<byte>, side: seq<byte>)
    returns (audioOut: seq<byte>, audioType: int, sideOut: seq<byte>, sideType: int)
    requires audio != [] && side != []
    requires |Muxed(audio, side)| <= CALLER_BUFFER
    ensures audioOut == audio && audioType == STREAM_AUDIO
    ensures sideOut == side && sideType == STREAM_SIDE_CHANNEL
  {
    assert |audio| <= CALLER_BUFFER && |side| <= CALLER_BUFFER;
    var muxed := EncodePair(audio, side);
    DemuxedPair(audio, side);
    var dec := DecodeMuxed(muxed, audio, side);
    audioOut, audioType, sideOut, sideType := ReadBack(dec, audio, side);
  }

  /** The test's own data: {01..08} comes back as audio, then {AA,BB,CC,DD} as side data. */
  method PcmRoundTrip() returns (audioOut: seq<byte>, audioType: int, sideOut: seq<byte>, sideType: int)
    ensures audioOut == AUDIO_DATA && audioType == STREAM_AUDIO
    ensures sideOut == SIDE_DATA && sideType == STREAM_SIDE_CHANNEL
  {
    assert Frame.FrameBytes(AUDIO_DATA, STREAM_AUDIO, 2) == [16] + AUDIO_DATA;
    assert Frame.FrameBytes(SIDE_DATA, STREAM_SIDE_CHANNEL, 2) == [9] + SIDE_DATA;
    audioOut, audioType, sideOut, sideType := TwoStreamRoundTrip(AUDIO_DATA, SIDE_DATA);
  }
}
