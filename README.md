# muxaudio, modelled in Dafny

muxaudio is a C library that carries an audio stream and an optional side
channel of arbitrary bytes in one byte stream. An encoder takes 16-bit PCM
or side-channel bytes and writes codec packets to a growable output buffer.
With two streams, every packet is framed by an unsigned LEB128 header. The
header holds twice the payload length plus the stream type: 0 for audio, 1
for the side channel. With one stream ("passthrough") the packets are
written back to back. A decoder buffers what it is fed, takes out every
whole packet, decodes audio packets into PCM on its audio output and copies
side packets to its side output. Reads drain audio first, then side data.

The model covers:

- the growable byte buffer (`Buffer`);
- LEB128 and the frame format (`Leb128`, `Frame`);
- the shared decoding loop (`Demux`);
- the error slot and message table (`Errors`);
- the public entry points with the codec registry (`Core`);
- the built-in adapters: PCM, G.711 A-law and G.711 mu-law (`Pcm`, `Alaw`, `Mulaw`);
- the AMR-NB and AMR-WB adapters (`Amr`, `AmrNb`, `AmrWb`);
- the Opus adapter's own code (`Opus`): the Ogg Opus header packets, their parser, and the whole-frame encode loop;
- the PCM round trip of `tests/test_pcm.c`, end to end (`Scenario`).

Supporting modules: `Types` holds status codes, bytes, 16-bit samples, and
little-endian sample packing; `Bits` holds powers of two, XOR on naturals,
and the G.711 segment number.

How the C becomes Dafny:

- Objects the C updates in place are classes:
  - `MuxBuffer`: the byte buffer;
  - `Core.Encoder` and `Core.Decoder`;
  - `Amr.EncoderData`, whose 160- or 320-sample accumulation buffer is an `array<int16>`;
  - `Amr.DecoderData`;
  - `Opus.EncoderData`.
- Loops become methods with loop invariants, each proved against a recursive specification function:
  - `Leb128.Encoding` and `Leb128.Decoding`;
  - `Demux.Demux` for the decode loop of every framing adapter;
  - `Amr.Emit` for the AMR block accumulator;
  - `Amr.Walk` for the AMR storage-format walk;
  - `Opus.Packetise` for the Opus frame loop.
- Properties of those functions are lemmas:
  - round trips: LEB128, frame header, OpusHead, G.711 decode-then-encode;
  - bounds;
  - what happens to a truncated or oversized input;
  - that the encoder's output decodes to the packets that went in.

Third-party code is a parameter of the model:

- AMR:
  - the encoder library is a function from (mode, 160 or 320 samples) to a failure code or a frame;
  - the decoder library is a function from (frame, sample index) to a sample.
- Opus: libopus is a function from one frame of samples to the length it reports.
- Core: adapters backed by a library (Opus, Vorbis, FLAC, MP3, AAC, AMR, AMR-WB) are not linked into `Core`'s dispatch. The status such an adapter returns is a parameter of the entry point.
- AMR private state: the C reaches its private state through `enc->codec_data`. The AMR methods take that state as a separate argument beside the `Core` object.

Which builds are modelled:

- AMR-NB is the `Amr.Variant` value `AmrNb.NB`. The whole of `src/codec_amr.c` is compiled only with opencore-amrnb; without it `Core.CodecOps` has no AMR entry.
- AMR-WB is `AmrWb.WB(encoderBuilt)`. Both builds of its encoder are modelled, with or without vo-amrwbenc. Without it, init and encode return `MUX_ERROR_NOCODEC` and finalize returns OK.

Behaviour the C has that is easy to miss, and which the model states:

- **The most negative sample in G.711.**
  - `-(-32768)` overflows a 16-bit sample. On the usual two's-complement targets it wraps back to -32768, which is below the clip level and so is never clipped.
  - A-law then produces the byte for -8.
  - mu-law produces 0x7F, which decodes to 0.
  - `Alaw.MostNegative` and `Mulaw.MostNegative` state this.
  - Every other input is encoded as the G.711 magnitude tables intend (`Quantisation`).
- **Mu-law zero is not re-encoded.**
  - Mu-law byte 0x7F ("negative zero") decodes to 0, and 0 encodes to 0xFF.
  - So decode-then-encode is the identity except at 0x7F (`Mulaw.EncodeDecode`).
- **Consumed count on error.**
  - The decoders' `*input_consumed` is written only on success.
  - The model reports 0 for every failing call of the framing decoders.
  - The AMR decoders set it before the walk; the model reports the whole input there, as the C does.
- **Signature drift.**
  - `include/mux.h` lists fewer codecs than `src/core.c`'s tables. The model follows `src/core.c`: ten codecs, in its table order.
  - `src/codec_pcm.c` calls `mux_leb128_write_frame` and `mux_leb128_read_frame` without the `num_streams` argument that `src/mux_internal.h` declares. The model passes the encoder's or decoder's stream count, as the other adapters do.
- **The malformed-header branch of a decoder.**
  - When `mux_leb128_read_frame` reports an overlong header, it returns `MUX_ERROR_INVAL` without writing the frame size. The decoder then tests a stale size.
  - Either way the decoder returns `MUX_ERROR_INVAL`, which is what `Frame.ParseFrame` and `Demux.Demux` give.
- **The "Invalid OpusHead" error is dead code.**
  - The Opus decoder calls `parse_opus_header` only after checking the two conditions under which the parser fails.
  - The contract of `Opus.ParseOpusHeader` shows that the parser then always succeeds.
- **OpusHead's sample rate.**
  - The parser reassembles the sample rate into a C `int`.
  - Values of 2^31 and above come back as their two's-complement reading (`Opus.Wrap32`).

## Model

| member | source | states |
|---|---|---|
| Types.PcmBytesAppend | src/codec_alaw.c:326-331 | Samples serialised one after another: the bytes of two runs of samples are the bytes of the first followed by the bytes of the second |
| Types.SamplesOfPcmBytes | src/codec_alaw.c:144-156 | Reading 16-bit samples back from the bytes that hold them gives the samples |
| Types.PcmBytesAt | src/codec_alaw.c:154-156 | Sample i of a run sits at bytes 2i and 2i+1, least significant first, and reads back as itself |
| Errors.ErrorString | src/error.c:23-38 | Every code has a non-empty message |
| Errors.MessagesIdentifyCodes | src/error.c:9-38 | Each of the codes 0..-10 has its own message, distinct from every other code's and from "Unknown error" |
| Errors.UnknownCodes | src/error.c:23-38 | A code gets "Unknown error" exactly when it is positive or below -10 |
| Errors.RecordedMessage | src/error.c:40-54 | A slot that set_error fills without a message still carries one, the code's own: it reads "Unknown error" exactly when the code is outside the table, and no other code of the table has it |
| Buffer.GrownCapacity | src/buffer.c:36-57 | Capacity is kept when enough; otherwise it becomes 1.5 times the old capacity or the amount needed, whichever is larger, and never less than needed |
| Buffer.MuxBuffer.constructor | src/buffer.c:7-25 | A new buffer is empty |
| Buffer.MuxBuffer.Init | src/buffer.c:7-25 | Init gives an empty buffer of the requested capacity and returns OK |
| Buffer.MuxBuffer.Deinit | src/buffer.c:27-34 | Deinit leaves an empty buffer with no storage |
| Buffer.MuxBuffer.EnsureCapacity | src/buffer.c:36-57 | The capacity becomes GrownCapacity; stored bytes, size and read position are kept |
| Buffer.MuxBuffer.Write | src/buffer.c:59-77 | The unread bytes are followed by the written bytes; the read position is unchanged; an empty write keeps the capacity |
| Buffer.MuxBuffer.Read | src/buffer.c:79-109 | An empty buffer gives AGAIN and nothing; otherwise the first min(n, unread) bytes are returned and removed, and a fully read buffer is reset to size 0 and position 0 |
| Buffer.MuxBuffer.Available | src/buffer.c:111-117 | The count of unread bytes |
| Buffer.MuxBuffer.Clear | src/buffer.c:119-126 | Nothing is left unread; the storage and capacity are kept |
| Leb128.EncodingLength | src/mux_leb128.c:10-31 | The encoding of v takes at most k bytes exactly when v < 128^k |
| Leb128.EncodingMinimal | src/mux_leb128.c:17-28 | The encoding is the shortest possible: one byte fewer could not hold v |
| Leb128.EncodingContinues | src/mux_leb128.c:21-22 | Every byte but the last has its continuation bit set |
| Leb128.RoundTrip | src/mux_leb128.c:37-65 | Decoding the encoding of any v < 2^63, followed by anything, gives v and the encoding's length |
| Leb128.TruncatedNeedsMore | src/mux_leb128.c:48-50 | A proper prefix of an encoding asks for more data |
| Leb128.TooLargeOverflows | src/mux_leb128.c:55-56 | The encoding of a value of 2^63 or more is rejected as an overflow: the decoder stops at nine bytes |
| Leb128.DecodedBound | src/mux_leb128.c:37-65 | A successful decode reads 1 to 9 bytes, no more than it was given, and gives a value below 128^length and below 2^63 |
| Leb128.Encode | src/mux_leb128.c:10-31 | The loop writes the encoding and returns its length, or INVAL after filling the output when the output is too small |
| Leb128.Decode | src/mux_leb128.c:37-65 | The loop returns OK with the decoded value and length, AGAIN on a truncated input, INVAL on an overflow, as the specification function says |
| Frame.HeaderWord | src/mux_leb128.c:95 | The header word's low bit is the stream type's and the rest is the payload length |
| Frame.HeaderFits | src/mux_leb128.c:79 | Every header word's encoding fits the 10-byte header buffer |
| Frame.ParseFrame | src/mux_leb128.c:126-211 | The frame reader's outcome: a payload taken from the front of the input, within capacity and tagged audio or side; AGAIN exactly when the frame is incomplete; INVAL for an overlong header; a too-small payload buffer reported with the frame's size |
| Frame.RoundTrip | src/mux_leb128.c:76-211 | Reading a written frame, followed by anything, gives back the payload and the stream type and consumes exactly the frame |
| Frame.ProbeTooSmall | src/mux_leb128.c:183-189 | When the payload buffer is too small, the reader reports the frame's size and stream type and consumes nothing |
| Frame.PartialFrameWaits | src/mux_leb128.c:179-181 | Any proper prefix of a written frame makes the reader ask for more data |
| Frame.RetryFits | src/codec_pcm.c:198-212 | Retrying with a buffer of the reported size reads that frame |
| Frame.PassthroughTakesAll | src/mux_leb128.c:142-163 | With one stream, the reader takes min(available, capacity) bytes as audio |
| Frame.WriteFrame | src/mux_leb128.c:76-117 | The written frame is appended to the output and OK is returned; the buffer never shrinks and does not grow when the frame fits in its free room |
| Frame.ReadFrame | src/mux_leb128.c:126-211 | The reader's result and new buffer state are what ParseFrame says; the buffer is untouched on failure and reset when fully read |
| Frame.ReadRaw | src/mux_leb128.c:142-163 | The one-stream branch of the reader agrees with ParseFrame |
| Frame.ReadFramed | src/mux_leb128.c:166-211 | The two-stream branch of the reader agrees with ParseFrame |
| Demux.Demux | src/codec_pcm.c:190-232 | The decode loop ends with OK or INVAL and leaves a suffix of its input buffered |
| Demux.DemuxStopsAt | src/codec_pcm.c:190-232 | The loop ends with OK exactly when the bytes left are an incomplete frame, and with INVAL only on an overlong header |
| Demux.DemuxStream | src/codec_pcm.c:190-232 | Any sequence of written frames, followed by an incomplete or malformed tail, decodes to the transformed audio payloads in order on the audio output and the side payloads in order on the side output, leaving the tail |
| Demux.DemuxStep | src/codec_pcm.c:190-232 | One written frame is read off the front and routed, and the loop goes on with the rest |
| Demux.DemuxPassthrough | src/codec_alaw.c:292-342 | With one stream, a sample-wise transform is applied to all the input, whatever chunk sizes the reader takes |
| Demux.NextFrame | src/codec_pcm.c:191-217 | One read, with the retry after a too-small buffer, takes the next frame as the specification says, or stops the loop |
| Demux.Deliver | src/codec_pcm.c:219-226 | Audio payloads go transformed to the audio output and side payloads unchanged to the side output |
| Demux.Turn | src/codec_pcm.c:155-237 | One pass of the decode loop moves at most one packet from the input buffer to its output, keeping the outputs plus what Demux still owes unchanged; a stop is what Demux says for the bytes left |
| Demux.Run | src/codec_pcm.c:155-237 | After buffering the input, the loop's status, buffered rest and both outputs are what Demux says for all the bytes buffered so far |
| Demux.ReadDecoded | src/codec_pcm.c:243-276 | A read drains audio first, then side data, up to the size asked, tagging the stream; AGAIN when both are empty |
| Pcm.EncoderEncode | src/codec_pcm.c:48-72 | Empty input writes nothing; otherwise the input is framed unchanged and wholly consumed |
| Pcm.DecoderDecode | src/codec_pcm.c:155-237 | The PCM decoder is the decode loop with the identity transform |
| Pcm.VerbatimBytewise | src/codec_pcm.c:220-222 | The identity transform is sample-wise |
| Pcm.PassthroughIsIdentity | src/codec_pcm.c:155-237 | With one stream, everything fed to the decoder comes out as audio unchanged |
| Alaw.Compress | src/codec_alaw.c:24-57 | The packed byte's top bit is the sample's sign |
| Alaw.UnmaskEncode | src/codec_alaw.c:59-60 | The transmitted byte is the packed byte XOR 0x55 |
| Alaw.Expand | src/codec_alaw.c:66-89 | Decoding gives a negative sample exactly when the sign bit is set |
| Alaw.CompressExpand | src/codec_alaw.c:24-89 | Packing the decoded value of any unmasked byte gives the byte back |
| Alaw.EncodeDecode | src/codec_alaw.c:24-89 | Encoding a decoded byte gives the byte back, for all 256 bytes |
| Alaw.BlockRoundTrip | src/codec_alaw.c:24-89 | The same for a whole block of bytes |
| Alaw.DecodeSignSymmetry | src/codec_alaw.c:84-88 | Flipping the sign bit negates the decoded sample |
| Alaw.EncodeSignSymmetry | src/codec_alaw.c:33-35 | Negating a positive sample flips only the sign bit of its code |
| Alaw.Quantisation | src/codec_alaw.c:24-89 | The decoded sample has the input's sign; its magnitude is within 8 of the clipped magnitude below 256, and within 1/32 of it above |
| Alaw.MostNegative | src/codec_alaw.c:33-35 | -32768 survives the negation unchanged and is coded as -8 |
| Alaw.SegmentSearch | src/codec_alaw.c:49-52 | The search loop finds the segment of a magnitude of at least 256 |
| Alaw.SegmentAndMantissa | src/codec_alaw.c:44-54 | The exponent and mantissa are the segment and the four bits below the leading one, including for the wrapped -32768 |
| Alaw.EncodeSample | src/codec_alaw.c:24-61 | The sample coder computes Encode |
| Alaw.EncodeBlock | src/codec_alaw.c:155-157 | The encoding loop fills an array with the code of each sample |
| Alaw.DecodeBlock | src/codec_alaw.c:326-328 | The decoding loop fills an array with the sample of each code |
| Alaw.EncoderEncode | src/codec_alaw.c:121-179 | Empty input, or a lone byte of audio, writes nothing; audio is framed as one A-law byte per whole sample, consuming the whole samples; side data is framed unchanged |
| Alaw.DecodedPcmBytewise | src/codec_alaw.c:318-332 | Decoding a frame is sample-wise |
| Alaw.DecoderDecode | src/codec_alaw.c:258-347 | The A-law decoder is the decode loop with the A-law expansion |
| Alaw.PassthroughDecodes | src/codec_alaw.c:258-347 | With one stream, all the input comes out decoded as audio |
| Alaw.ReencodeDecoded | src/codec_alaw.c:121-347 | Re-encoding the decoded audio gives the original A-law bytes |
| Mulaw.Compress | src/codec_mulaw.c:28-58 | The packed byte's top bit is the sample's sign |
| Mulaw.Expand | src/codec_mulaw.c:64-84 | Codes without the sign bit decode to samples of at least 0; codes with it, to samples of at most 0 |
| Mulaw.CompressExpand | src/codec_mulaw.c:28-84 | Packing the decoded value of any unmasked byte but 0x80 gives the byte back |
| Mulaw.EncodeDecode | src/codec_mulaw.c:28-84 | Encoding a decoded byte gives it back, except 0x7F, which comes back as 0xFF; decoding is stable under re-encoding |
| Mulaw.BlockRoundTrip | src/codec_mulaw.c:28-84 | The same for a whole block |
| Mulaw.DecodeSignSymmetry | src/codec_mulaw.c:79-83 | Flipping the sign bit negates the decoded sample |
| Mulaw.EncodeSignSymmetry | src/codec_mulaw.c:36-38 | Negating a positive sample only sets the sign bit of its code |
| Mulaw.Quantisation | src/codec_mulaw.c:28-84 | The decoded sample has the input's sign, and its biased magnitude is within 1/32 of the input's |
| Mulaw.MostNegative | src/codec_mulaw.c:36-45 | -32768 survives the negation unchanged and is coded as 0x7F, which decodes to 0 |
| Mulaw.ExponentSearch | src/codec_mulaw.c:48-52 | The bit-test loop finds the segment of the biased magnitude, or 0 for the wrapped -32768 |
| Mulaw.EncodeSample | src/codec_mulaw.c:28-59 | The sample coder computes Encode |
| Mulaw.EncodeBlock | src/codec_mulaw.c:150-152 | The encoding loop fills an array with the code of each sample |
| Mulaw.DecodeBlock | src/codec_mulaw.c:321-323 | The decoding loop fills an array with the sample of each code |
| Mulaw.EncoderEncode | src/codec_mulaw.c:116-174 | Empty input, or a lone byte of audio, writes nothing; audio is framed as one mu-law byte per whole sample, consuming the whole samples; side data is framed unchanged |
| Mulaw.DecodedPcmBytewise | src/codec_mulaw.c:313-327 | Decoding a frame is sample-wise |
| Mulaw.DecoderDecode | src/codec_mulaw.c:253-342 | The mu-law decoder is the decode loop with the mu-law expansion |
| Mulaw.PassthroughDecodes | src/codec_mulaw.c:253-342 | With one stream, all the input comes out decoded as audio |
| Mulaw.ReencodeDecoded | src/codec_mulaw.c:116-342 | Re-encoding decoded audio gives the original bytes but with 0x7F turned into 0xFF, and decodes to the same audio |
| Core.CodecOps | src/core.c:66-106 | Only the ten codec numbers have adapters; PCM and both G.711 codecs are always present; every present adapter but MP3 both encodes and decodes |
| Core.CodecToName | src/core.c:136-142 | A codec number has a name exactly when it is in range |
| Core.NameRoundTrip | src/core.c:119-142 | Looking up a codec's name gives the codec; a name that is found maps back to itself |
| Core.CodecFromName | src/core.c:119-134 | The lookup loop returns INVAL for a missing name or an unknown one, and OK with the codec whose name it is otherwise |
| Core.Encoder.constructor | src/core.c:270-292 | A new encoder is zeroed, with an empty output buffer |
| Core.Decoder.constructor | src/core.c:367-386 | A new decoder is zeroed, with empty outputs |
| Core.Decoder.Open | src/core.c:306-349 | Records the codec and stream count, and gives framing codecs an empty input buffer; the error slot stays cleared for framing codecs and holds what a library adapter's set-up recorded otherwise |
| Core.EncoderInit | src/core.c:212-253 | INVAL for a null encoder or a stream count other than 1 or 2, leaving it untouched; NOCODEC, zeroed, for an absent encoder; otherwise the fields set and the adapter's status; on success the 4096-byte output buffer is empty for framing codecs and holds the bytes a library adapter's set-up wrote (the Opus and Vorbis header pages), grown as Buffer.Write grows it, and on failure it is released; the error slot is cleared for framing codecs and holds what a library adapter's set-up recorded otherwise |
| Core.EncoderDeinit | src/core.c:255-265 | A deinitialised encoder is zeroed |
| Core.DecoderInit | src/core.c:306-349 | The same checks as the encoder's, and the decoder opened for the codec, its error slot as Decoder.Open leaves it |
| Core.DecoderDeinit | src/core.c:351-362 | A deinitialised decoder is zeroed |
| Core.FramedEncoding | src/codec_alaw.c:121-179 | What a built-in adapter frames: PCM input or side data unchanged and wholly consumed, G.711 audio one byte per whole sample |
| Core.EncoderEncode | src/core.c:400-411 | Dispatch: INVAL without an encoder; built-in adapters append their framed output and leave the error slot alone; others return their own status and leave the slot they recorded; the codec and its settings never change |
| Core.EncoderRead | src/core.c:413-423 | Reading the output drains up to the size asked, AGAIN when empty |
| Core.EncoderFinalize | src/core.c:425-435 | INVAL without an adapter; OK for built-in adapters and for codecs without an encoder; the adapter's status otherwise |
| Core.DecoderDecode | src/core.c:440-450 | Dispatch: INVAL without a decoder; built-in adapters run the decode loop with their transform and leave the error slot alone; others return their own status and leave the slot they recorded; the codec and stream count never change |
| Core.DecoderRead | src/core.c:452-463 | Reading drains audio first, then side data, AGAIN when both are empty |
| Core.DecoderFinalize | src/core.c:465-475 | As the encoder's finalize |
| Core.EncoderGetError | src/error.c:72-78 | There is an error slot exactly when there is an encoder |
| Core.DecoderGetError | src/error.c:80-86 | There is an error slot exactly when there is a decoder |
| Core.EncoderSetError | src/error.c:40-54 | The encoder's slot holds Recorded(...) and nothing else changes |
| Core.DecoderSetError | src/error.c:56-70 | The decoder's slot holds Recorded(...) and nothing else changes |
| Core.EncoderClearError | src/error.c:88-94 | The encoder's slot is cleared to OK and nothing else changes |
| Core.DecoderClearError | src/error.c:96-102 | The decoder's slot is cleared to OK and nothing else changes |
| Scenario.DemuxedPair | tests/test_pcm.c:53-103 | An audio packet framed after a side packet decode to exactly those packets on their outputs |
| Scenario.TwoStreamRoundTrip | tests/test_pcm.c:44-139 | Any two non-empty packets that fit the test's buffers go through a two-stream PCM encoder and decoder and come back, audio first, then side |
| Scenario.PcmRoundTrip | tests/test_pcm.c:21-139 | The test's own audio and side bytes come back as the test expects |
| Amr.FrameType | src/codec_amr.c:394-397 | The frame type is a four-bit field of the mode byte |
| Amr.Emit | src/codec_amr.c:223-260 | The accumulator either succeeds, leaving less than one block pending, or fails with exactly one full block pending |
| Amr.Chunks | src/codec_amr.c:223-260 | The accumulator cuts its samples into blocks of the library's frame length |
| Amr.Leftover | src/codec_amr.c:223-260 | Less than one block is left over |
| Amr.ChunksCover | src/codec_amr.c:223-260 | The blocks followed by the leftover are exactly the samples |
| Amr.ChunksCount | src/codec_amr.c:223-260 | As many whole blocks as fit are taken, with fewer than a block left over |
| Amr.ChunksFlatten | src/codec_amr.c:223-260 | Laid end to end, the blocks and the leftover give back the samples |
| Amr.EmitWhenCoded | src/codec_amr.c:223-260 | When the library codes every block, the output is the framed codes of all the blocks in order and the leftover stays pending |
| Amr.EmitWhenFailed | src/codec_amr.c:236-250 | When block k is the first the library fails, the output holds the first k frames, the failing block stays pending, and the library's code is reported |
| Amr.EncodeThenFlush | src/codec_amr.c:183-332 | With a library that always codes, encoding and then finalizing emits one frame for every block of the input padded with silence to a whole block |
| Amr.Silence | src/codec_amr.c:310-311 | The padding is zero samples |
| Amr.EncoderData.constructor | src/codec_amr.c:104-159 | A new encoder state has an empty block buffer of the variant's length, the given mode and DTX off |
| Amr.EncoderData.Gather | src/codec_amr.c:225-233 | Copying samples appends them to the pending ones |
| Amr.EncoderData.PadWithSilence | src/codec_amr.c:308-311 | The block buffer becomes the pending samples followed by zeros |
| Amr.EncodeTurn | src/codec_amr.c:223-259 | One pass of the accumulation loop keeps the output plus what Emit still owes equal to what Emit owed before, and on OK makes progress |
| Amr.EncodeSamples | src/codec_amr.c:219-260 | The accumulation loop's status, library code, output and pending samples are what Emit says for the old pending samples and the new ones |
| Amr.GatherAndEncode | src/codec_amr.c:223-259 | One pass of the loop agrees with Emit |
| Amr.EncodeBlock | src/codec_amr.c:236-259 | A failing library leaves everything as it was and gives ENCODE; a successful one appends the framed audio packet and empties the block |
| Amr.EmitBlock | src/codec_amr.c:236-259 | Emit on one full block is that block's coding or failure |
| Amr.EmitSplit | src/codec_amr.c:223-260 | Splitting the input at a pass boundary does not change Emit's outcome |
| Amr.EncoderInit | src/codec_amr.c:104-159 | NOCODEC when the encoder is not built, INVAL for a wrong rate or more than one channel, INIT when the library will not start, each with its message recorded; otherwise a fresh state with the default mode |
| Amr.EncoderEncode | src/codec_amr.c:183-264 | Null state gives INVAL; empty input and a lone audio byte do nothing; side data is framed unchanged; audio is accumulated as Emit says, consuming the whole samples on success and recording the library failure on ENCODE |
| Amr.EncoderFinalize | src/codec_amr.c:293-332 | Pending samples are padded and coded, the frame appended when the library gives one, and nothing is left pending |
| Amr.DecoderData.constructor | src/codec_amr.c:337-367 | A new decoder state has an empty input buffer |
| Amr.DecoderInit | src/codec_amr.c:337-367 | INIT with its message when the library will not start; otherwise a fresh state with a 4096-byte input buffer |
| Amr.DecodedBlock | src/codec_amr.c:474-477 | Each decoded frame gives one block of samples: 320 bytes for AMR-NB |
| Amr.Walk | src/codec_amr.c:456-491 | The storage-format walk ends with OK or DECODE and uses no more than it was given |
| Amr.WalkFrames | src/codec_amr.c:456-491 | Whole frames are decoded in order; the walk stops with OK at a partial frame or the end, and with DECODE at a reserved frame type |
| Amr.DecodeStorageFrames | src/codec_amr.c:456-491 | The walk loop's status, output and remaining input are what Walk says; a fully read buffer is reset |
| Amr.DecodeOne | src/codec_amr.c:473-484 | One frame is decoded to the audio output and skipped in the input |
| Amr.Rewind | src/codec_amr.c:488-491 | The buffer is reset when fully read, with its contents unchanged |
| Amr.WalkStep | src/codec_amr.c:457-484 | One whole frame is decoded and the walk goes on after it |
| Amr.WalkStop | src/codec_amr.c:469-471 | A partial frame or no input ends the walk with OK |
| Amr.WalkBadType | src/codec_amr.c:462-467 | A reserved frame type ends the walk with DECODE |
| Amr.DecoderDecode | src/codec_amr.c:423-543 | INVAL without state; otherwise the whole input is consumed; with one stream, the walk's outcome; with two, the decode loop's, each audio frame giving one block |
| AmrNb.FrameSizes | src/codec_amr.c:394-418 | Frame sizes are 0..32; exactly the reserved types 9-14 have size 0; NO_DATA has size 1 |
| AmrNb.ReservedTypeFails | src/codec_amr.c:462-467 | A stored frame of a reserved type fails to decode |
| AmrNb.DecodedPacketSize | src/codec_amr.c:524-529 | Every decoded AMR-NB packet is 320 bytes |
| AmrWb.WB | src/codec_amr_wb.c:121-188 | The AMR-WB variant: 16000 Hz, blocks of 320 samples, mode 8 by default |
| AmrWb.FrameSizes | src/codec_amr_wb.c:439-465 | Frame sizes are 0..61; exactly types 10-13 have size 0; types 14 and 15 have size 1; SID has size 6 |
| AmrWb.ReservedTypeFails | src/codec_amr_wb.c:509-514 | A stored frame of a reserved type fails to decode |
| AmrWb.DecodedPacketSize | src/codec_amr_wb.c:571-579 | Every decoded AMR-WB packet is 640 bytes |
| Opus.OpusHead | src/codec_opus.c:164-191 | The identification header is 19 bytes and starts with "OpusHead" |
| Opus.OpusTags | src/codec_opus.c:196-233 | The comment header is 24 bytes and starts with "OpusTags" |
| Opus.HeadFields | src/codec_opus.c:166-180 | Version 1, the channel count in byte 9, pre-skip 0, the sample rate little-endian in bytes 12-15, gain 0, mapping family 0 |
| Opus.TagsFields | src/codec_opus.c:198-222 | Vendor length 8, then "muxaudio", then a comment count of 0 |
| Opus.ParseOpusHeader | src/codec_opus.c:602-616 | The parse fails exactly when the packet is shorter than 19 bytes or lacks the magic; otherwise the channel count is byte 9 and the rate is bytes 12-15 read as a C int |
| Opus.U32RoundTrip | src/codec_opus.c:175-178 | Writing a 32-bit value least significant byte first and reading it back gives the value modulo 2^32 |
| Opus.HeadRoundTrip | src/codec_opus.c:164-180 | Parsing a written header gives back the rate and channel count for every rate a C int holds and every channel count below 256 |
| Opus.EncoderData.constructor | src/codec_opus.c:238-325 | A frame is 20 ms (sample rate / 50 samples per channel); packet count and granule position start at 0 |
| Opus.Packetise | src/codec_opus.c:421-465 | Never more packets than frames; status OK or ENCODE |
| Opus.PacketiseTakesWholeFrames | src/codec_opus.c:421-465 | The frames taken fit in the input, and without a failure less than one frame is left |
| Opus.ConsumedWholeFrames | src/codec_opus.c:420-463 | A successful call consumes (samples / frame_size) * frame_size * channels * 2 bytes: whole frames only |
| Opus.EncodeTurn | src/codec_opus.c:420-463 | One frame: a negative length ends the call with the failure Packetise reports; otherwise the frame is counted, with a packet and a frame of granule when the length is positive |
| Opus.EncodeFrames | src/codec_opus.c:420-463 | The frame loop's status, library code, consumed samples, packet count and granule position are what Packetise says; each non-empty packet adds one packet and one frame of granule |
| Opus.EncoderEncode | src/codec_opus.c:355-467 | Null state gives INVAL; empty input does nothing; side data is taken whole; audio is cut into whole frames, and a libopus failure is recorded with its code and message and returned as ENCODE |

## Left out

- Memory exhaustion: `MUX_ERROR_NOMEM` and every failing `malloc`/`realloc` are not modelled; the model's allocations always succeed.
- Null pointers passed for buffers and out-parameters: the model has no such arguments; only null encoders, decoders and adapter state are modelled.
- Library internals: what opencore-amrnb, opencore-amrwb, vo-amrwbenc and libopus compute is a parameter; the content of their frames is not modelled.
- The library-backed adapters in `Core`'s dispatch: their status, the error slot they leave and, at init, the bytes they write to the output buffer are passed through; what their encode and decode calls do to the buffers is not described. The Vorbis, FLAC, MP3 and AAC adapters are not part of this model.
- Core.EncoderFinalize: returns the adapter's status only; the AAC adapter's finalize also records an error, which the model does not show in the encoder's slot.
- Opus: Ogg paging, the side-channel Ogg stream, `opus_encoder_create` and its failure, the decoder, encoder read and finalize are not modelled; only the header bytes, the parser and the encode loop's arithmetic are.
- Opus.EncoderEncode: does not model the Ogg packets it queues or the side stream's header packet, because libogg's paging is outside the model; the side branch only sets `haveSideStream`.
- Amr.DecoderDecode: the library's decoded samples are a function of the frame bytes alone; decoder state carried between frames is not modelled, and in the framed mode the library is given exactly the payload rather than the reused frame buffer (1024 bytes at first) that holds it.
- AMR encoder parameters: `bitrate_to_mode` uses floating point and parameter lists are not modelled; the mode stays at its default and DTX off.
- AMR encoder read and decoder read are plain buffer reads, modelled once as `Buffer.MuxBuffer.Read` and `Demux.ReadDecoded`.
- Adapter deinit functions only free memory and are not modelled; `Core.EncoderDeinit` and `Core.DecoderDeinit` zero the objects.
- Parameter tables, sample-rate tables and their queries (`mux_get_encoder_params`, `mux_get_decoder_params`, `mux_get_supported_sample_rates`, `mux_list_codecs`) are constant data and are not modelled.
- `mux_encoder_new`, `mux_decoder_new` and the `_destroy` functions allocate and free; they appear only as the constructors and `Scenario.NewPcmDecoder`.
- The command-line tools are not part of this model.
- Integer widths: sizes are unbounded naturals; frames longer than 2^62 bytes are outside every lemma's precondition.
