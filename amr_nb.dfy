/**
 * The AMR-NB adapter (src/codec_amr.c): 8 kHz mono speech in blocks of
 * 160 samples (20 ms), opencore-amrnb on both sides.
 */
module AmrNb {
  import opened Types
  import Amr

  const SAMPLE_RATE: int := 8000
  const FRAME_SAMPLES: nat := 160
  const MAX_FRAME_SIZE: int := 32
  /** MR122, 12.2 kbit/s: the mode an encoder starts in. */
  const MODE_1220: int := 7
  const NO_DATA: nat := 15

  /** Storage frame sizes by frame type, first byte included: eight speech modes, SID, six reserved types, NO_DATA. */
  const FRAME_SIZES: seq<int> := [13, 14, 16, 18, 20, 21, 27, 32, 6, 0, 0, 0, 0, 0, 0, 1]

  const NB: Amr.Variant := Amr.Variant(
    SAMPLE_RATE, FRAME_SAMPLES, MODE_1220, FRAME_SIZES,
    "AMR-NB requires 8000 Hz sample rate",
    "AMR-NB requires mono audio",
    "Failed to initialize AMR encoder",
    "AMR encoding failed",
    "Failed to initialize AMR decoder",
    "opencore-amrnb", "opencore-amrnb",
    true, "")

  /**
   * amr_get_frame_size never reaches its -1 branch: every byte names a
   * frame type of the table.  A size is at most the largest speech frame;
   * it is 0, which the decoder rejects, exactly for the reserved types
   * 9..14; NO_DATA is a lone header byte.
   */
  lemma FrameSizes(b: byte)
    ensures NB.WellFormed()
    ensures 0 <= Amr.FrameSize(NB, b) <= MAX_FRAME_SIZE
    ensures Amr.FrameSize(NB, b) == 0 <==> 9 <= Amr.FrameType(b) <= 14
    ensures Amr.FrameType(b) == NO_DATA ==> Amr.FrameSize(NB, b) == 1
  {
  }

  /** A stream whose next byte announces a reserved frame type cannot be decoded further. */
  lemma ReservedTypeFails(b: byte, rest: seq<byte>, lib: (seq<byte>, int) -> int16)
    requires 9 <= Amr.FrameType(b) <= 14
    ensures NB.WellFormed() && Amr.Walk(NB, [b] + rest, lib) == Amr.Walked(DECODE, [], 0)
  {
    FrameSizes(b);
  }

  /** In a multi-stream decoder every audio packet becomes one whole block of samples: 320 bytes of output. */
  lemma DecodedPacketSize(lib: (seq<byte>, int) -> int16, payload: seq<byte>)
    ensures |Amr.PcmOf(NB, lib)(payload)| == 320
  {
  }
}
