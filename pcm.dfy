/**
 * The PCM adapter (src/codec_pcm.c): raw bytes are framed unchanged on the
 * encoder side, and on the decoder side every whole packet is routed
 * verbatim to the audio or side output.
 */
module Pcm {
  import opened Types
  import Frame
  import opened Buffer
  import Demux

  /** The PCM decoder's conversion of an audio payload: none. */
  function Verbatim(payload: seq<byte>): seq<byte>
  {
    payload
  }

  /**
   * pcm_encoder_encode: an empty input writes nothing and consumes nothing;
   * any other input becomes exactly one packet holding all of it, tagged
   * with the caller's stream type, and is consumed whole.
   */
  method EncoderEncode(output: MuxBuffer, input: seq<byte>, streamType: int, numStreams: int)
    returns (r: int, consumed: nat)
    requires output.Valid()
    modifies output
    ensures output.Valid() && r == OK && output.readPos == old(output.readPos)
    ensures |input| == 0 ==> consumed == 0 && output.Unread() == old(output.Unread())
    ensures |input| > 0 ==>
      consumed == |input| &&
      output.Unread() == old(output.Unread()) + Frame.FrameBytes(input, streamType, numStreams)
  {
    if |input| == 0 {
      return OK, 0;
    }
    r := Frame.WriteFrame(output, input, streamType, numStreams);
    consumed := |input|;
  }

  /**
   * pcm_decoder_decode: the input is buffered and every whole packet taken
   * out as Demux describes, from an 8192-byte scratch area, payloads
   * copied unchanged.  The whole input counts as consumed on success.
   */
  method DecoderDecode(inputBuf: MuxBuffer, audio: MuxBuffer, side: MuxBuffer, input: seq<byte>, numStreams: int)
    returns (r: int, consumed: nat)
    requires inputBuf.Valid() && audio.Valid() && side.Valid()
    requires inputBuf != audio && inputBuf != side && audio != side
    modifies inputBuf, audio, side
    ensures inputBuf.Valid() && audio.Valid() && side.Valid()
    ensures var d := Demux.Demux(old(inputBuf.Unread()) + input, Demux.SCRATCH_CAPACITY, numStreams, Verbatim);
      r == d.status && consumed == (if r == OK then |input| else 0) && inputBuf.Unread() == d.rest &&
      audio.Unread() == old(audio.Unread()) + d.audio && side.Unread() == old(side.Unread()) + d.side
  {
    r := Demux.Run(inputBuf, audio, side, input, Demux.SCRATCH_CAPACITY, numStreams, Verbatim);
    consumed := if r == OK then |input| else 0;
  }

  function Single(b: byte): seq<byte>
  {
    [b]
  }

  lemma {:induction false} VerbatimBytewise(s: seq<byte>)
    ensures Demux.Bytewise(Single, s) == s
    decreases |s|
  {
    if s != [] {
      VerbatimBytewise(s[1..]);
      assert [s[0]] + s[1..] == s;
    }
  }

  /**
   * With one stream every buffered byte reaches the audio output unchanged
   * and in order, whatever the scratch area's size, and nothing stays
   * buffered.
   */
  lemma PassthroughIsIdentity(s: seq<byte>, capacity: nat)
    requires capacity > 0
    ensures Demux.Demux(s, capacity, 1, Verbatim) == Demux.Demuxed(OK, s, [], [])
  {
    forall x {
      VerbatimBytewise(x);
    }
    Demux.DemuxPassthrough(s, capacity, Verbatim, Single);
    VerbatimBytewise(s);
  }
}
