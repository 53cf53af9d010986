/**
 * The AMR-WB adapter (src/codec_amr_wb.c): 16 kHz mono speech in blocks
 * of 320 samples (20 ms), vo-amrwbenc to encode and opencore-amrwb to
 * decode.  The encoder exists only when vo-amrwbenc is available.
 */
module AmrWb {
  import opened Types
  import Amr

  const SAMPLE_RATE: int := 16000
  const FRAME_SAMPLES: nat := 320
  const MAX_FRAME_SIZE: int := 61
  /** 23.85 kbit/s: the mode an encoder starts in. */
  const MODE_2385: int := 8
  const SID: nat := 9

  /** Storage frame sizes by frame type, first byte included: nine speech modes, SID, four reserved types, speech lost, NO_DATA. */
  const FRAME_SIZES: seq<int> := [18, 24, 33, 37, 41, 47, 51, 59, 61, 6, 0, 0, 0, 0, 1, 1]

  /** The variant; `encoderBuilt` says whether vo-amrwbenc is part of the build. */
  function WB(encoderBuilt: bool): (v: Amr.Variant)
    ensures v.WellFormed() && v.encoderBuilt == encoderBuilt
    ensures v.sampleRate == SAMPLE_RATE && v.blockSamples == FRAME_SAMPLES && v.defaultMode == MODE_2385
  {
    Amr.Variant(
      SAMPLE_RATE, FRAME_SAMPLES, MODE_2385, FRAME_SIZES,
      "AMR-WB requires 16000 Hz sample rate",
      "AMR-WB requires mono audio",
      "Failed to initialize AMR-WB encoder",
      "AMR-WB encoding failed",
      "Failed to initialize AMR-WB decoder",
      "vo-amrwbenc", "opencore-amrwb",
      encoderBuilt,
      "AMR-WB encoding not available (vo-amrwbenc not found)")
  }

  /**
   * amr_wb_get_frame_size never reaches its -1 branch.  A size is at most
   * the largest speech frame; it is 0 exactly for the reserved types
   * 10..13; types 14 and 15 are lone header bytes.
   */
  lemma FrameSizes(encoderBuilt: bool, b: byte)
    ensures 0 <= Amr.FrameSize(WB(encoderBuilt), b) <= MAX_FRAME_SIZE
    ensures Amr.FrameSize(WB(encoderBuilt), b) == 0 <==> 10 <= Amr.FrameType(b) <= 13
    ensures Amr.FrameType(b) >= 14 ==> Amr.FrameSize(WB(encoderBuilt), b) == 1
    ensures Amr.FrameType(b) == SID ==> Amr.FrameSize(WB(encoderBuilt), b) == 6
  {
  }

  /** A stream whose next byte announces a reserved frame type cannot be decoded further. */
  lemma ReservedTypeFails(encoderBuilt: bool, b: byte, rest: seq<byte>, lib: (seq<byte>, int) -> int16)
    requires 10 <= Amr.FrameType(b) <= 13
    ensures Amr.Walk(WB(encoderBuilt), [b] + rest, lib) == Amr.Walked(DECODE, [], 0)
  {
    FrameSizes(encoderBuilt, b);
  }

  /** In a multi-stream decoder every audio packet becomes one whole block of samples: 640 bytes of output. */
  lemma DecodedPacketSize(encoderBuilt: bool, lib: (seq<byte>, int) -> int16, payload: seq<byte>)
    ensures |Amr.PcmOf(WB(encoderBuilt), lib)(payload)| == 640
  {
  }
}
