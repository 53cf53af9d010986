/**
 * The public entry points (src/core.c, src/error.c): the codec registry
 * and name table, encoder and decoder set-up and tear-down, the
 * forwarders that hand each call to the codec's adapter, and the error
 * slot of each instance.
 *
 * The PCM, A-law and mu-law adapters are modelled in full and are called
 * here.  Every other adapter (Opus, Vorbis, FLAC, MP3, AAC and the two AMR
 * adapters, whose work is done by outside libraries) is represented by
 * the result its operation returns and by what it leaves in the error
 * slot, both of which the caller passes in.
 */
module Core {
  import opened Types
  import opened Errors
  import opened Buffer
  import Pcm
  import Alaw
  import Mulaw
  import Demux
  import Frame

  // Codec identifiers, in the order of the registry tables of src/core.c.
  const CODEC_PCM: int := 0
  const CODEC_OPUS: int := 1
  const CODEC_VORBIS: int := 2
  const CODEC_FLAC: int := 3
  const CODEC_MP3: int := 4
  const CODEC_AAC: int := 5
  const CODEC_ALAW: int := 6
  const CODEC_MULAW: int := 7
  const CODEC_AMR: int := 8
  const CODEC_AMR_WB: int := 9
  const CODEC_MAX: int := 10

  /** The name column of codec_info_table, indexed by codec identifier. */
  const NAMES: seq<string> := ["pcm", "opus", "vorbis", "flac", "mp3", "aac", "alaw", "mulaw", "amr", "amr-wb"]

  /** Which optional libraries the library was built with (the HAVE_* switches). */
  datatype Build = Build(mp3: bool, mp3Encode: bool, mp3Decode: bool, vorbis: bool, opus: bool,
                         flac: bool, aac: bool, amr: bool, amrWb: bool)

  /**
   * A codec's operations table, reduced to what the entry points look at:
   * whether the encoder and decoder entries are filled in.  Every table
   * fills in all five encoder entries or none, and likewise for the decoder.
   */
  datatype Ops = Ops(codec: int, encoder: bool, decoder: bool)

  /**
   * The error slot after a call into an adapter that is not modelled
   * here: the slot that adapter recorded, or the slot as it was when it
   * recorded nothing.
   */
  function AfterAdapter(slot: ErrorInfo, adapterError: Option<ErrorInfo>): ErrorInfo
  {
    if adapterError.Some? then adapterError.value else slot
  }

  /** The framing codecs whose adapters are modelled here. */
  predicate Framing(codec: int)
  {
    codec == CODEC_PCM || codec == CODEC_ALAW || codec == CODEC_MULAW
  }

  /** mux_get_codec_ops: the table slot of a codec identifier; None for a null slot or an identifier out of range. */
  function CodecOps(codecType: int, build: Build): (o: Option<Ops>)
    ensures o.Some? ==> 0 <= codecType < CODEC_MAX && o.value.codec == codecType
    ensures (codecType < 0 || codecType >= CODEC_MAX) ==> o.None?
    ensures Framing(codecType) ==> o == Some(Ops(codecType, true, true))
    ensures o.Some? && codecType != CODEC_MP3 ==> o.value.encoder && o.value.decoder
  {
    if codecType == CODEC_PCM || codecType == CODEC_ALAW || codecType == CODEC_MULAW then Some(Ops(codecType, true, true))
    else if codecType == CODEC_MP3 then
      (if build.mp3 then Some(Ops(codecType, build.mp3Encode, build.mp3Decode)) else None)
    else if codecType == CODEC_VORBIS then (if build.vorbis then Some(Ops(codecType, true, true)) else None)
    else if codecType == CODEC_OPUS then (if build.opus then Some(Ops(codecType, true, true)) else None)
    else if codecType == CODEC_FLAC then (if build.flac then Some(Ops(codecType, true, true)) else None)
    else if codecType == CODEC_AAC then (if build.aac then Some(Ops(codecType, true, true)) else None)
    else if codecType == CODEC_AMR then (if build.amr then Some(Ops(codecType, true, true)) else None)
    else if codecType == CODEC_AMR_WB then (if build.amrWb then Some(Ops(codecType, true, true)) else None)
    else None
  }

  /** mux_codec_to_name: the registry name of a codec identifier, None (a null pointer) out of range. */
  function CodecToName(codecType: int): (name: Option<string>)
    ensures name.Some? <==> 0 <= codecType < CODEC_MAX
  {
    if codecType < 0 || codecType >= CODEC_MAX then None else Some(NAMES[codecType])
  }

  /** The first registry entry from `i` on whose name is `name`, or -1. */
  function IndexFrom(name: string, i: nat): (k: int)
    requires i <= |NAMES|
    ensures k == -1 || i <= k < |NAMES|
    ensures k >= 0 ==> NAMES[k] == name
    decreases |NAMES| - i
  {
    if i == |NAMES| then -1
    else if NAMES[i] == name then i
    else IndexFrom(name, i + 1)
  }

  /** The first character and the last: together they tell the registry names apart. */
  function NameKey(s: string): int
    requires s != []
  {
    256 * (s[0] as int) + (s[|s| - 1] as int)
  }

  /** Which registry entry has a given name key; -1 for any other key. */
  function EntryWithNameKey(k: int): int
  {
    if k == 28781 then 0 else if k == 28531 then 1 else if k == 30323 then 2
    else if k == 26211 then 3 else if k == 27955 then 4 else if k == 24931 then 5
    else if k == 24951 then 6 else if k == 28023 then 7 else if k == 24946 then 8
    else if k == 24930 then 9 else -1
  }

  lemma NameKeys(i: nat)
    requires i < |NAMES|
    ensures NAMES[i] != [] && EntryWithNameKey(NameKey(NAMES[i])) == i
  {
  }

  /** The search finds nothing it has already passed: no later entry repeats an earlier name. */
  lemma {:induction false} IndexFromFinds(t: nat, i: nat)
    requires i <= t < |NAMES|
    ensures IndexFrom(NAMES[t], i) == t
    decreases t - i
  {
    if i < t {
      NameKeys(i);
      NameKeys(t);
      IndexFromFinds(t, i + 1);
    }
  }

  /**
   * The registry names are distinct, so looking up the name of any codec
   * gives that codec back, and a name that is found is that codec's name.
   */
  lemma NameRoundTrip(codecType: int, name: string)
    ensures 0 <= codecType < CODEC_MAX ==> IndexFrom(CodecToName(codecType).value, 0) == codecType
    ensures IndexFrom(name, 0) >= 0 ==> CodecToName(IndexFrom(name, 0)) == Some(name)
  {
    if 0 <= codecType < CODEC_MAX {
      IndexFromFinds(codecType, 0);
    }
  }

  /**
   * mux_codec_from_name: a linear search of the registry for an equal
   * name.  A null name, or one not in the registry, gives INVAL.
   */
  method CodecFromName(name: Option<string>) returns (r: int, codec: int)
    ensures name.None? ==> r == INVAL
    ensures name.Some? ==> (r == OK <==> IndexFrom(name.value, 0) >= 0)
    ensures name.Some? && r == OK ==> codec == IndexFrom(name.value, 0) && CodecToName(codec) == name
    ensures r == OK || r == INVAL
  {
    codec := 0;
    if name.None? {
      return INVAL, codec;
    }
    var i := 0;
    while i < CODEC_MAX
      invariant 0 <= i <= CODEC_MAX
      invariant IndexFrom(name.value, 0) == IndexFrom(name.value, i)
    {
      if NAMES[i] == name.value {
        return OK, i;
      }
      i := i + 1;
    }
    r := INVAL;
  }

  /**
   * struct mux_encoder.  The output buffer is embedded in the C struct;
   * here it is an object of its own that the encoder always owns.  None of
   * the modelled encoder adapters keeps codec data.
   */
  class Encoder {
    var codecType: int
    var ops: Option<Ops>
    var sampleRate: int
    var numChannels: int
    var numStreams: int
    const output: MuxBuffer
    var error: ErrorInfo

    ghost predicate Valid()
      reads this, output
    {
      output.Valid()
    }

    /** An encoder fresh from calloc: every field zero. */
    constructor ()
      ensures Valid() && Zeroed() && fresh(output)
    {
      codecType, ops, sampleRate, numChannels, numStreams := 0, None, 0, 0, 0;
      error := CLEARED;
      output := new MuxBuffer();
    }

    /** memset to zero, after the output buffer has been released. */
    method Clear()
      requires Valid()
      modifies this, output
      ensures Valid() && Zeroed()
    {
      output.Deinit();
      codecType, ops, sampleRate, numChannels, numStreams := 0, None, 0, 0, 0;
      error := CLEARED;
    }

    /** Every field zero, as memset leaves the struct. */
    ghost predicate Zeroed()
      reads this, output
    {
      codecType == 0 && ops.None? && sampleRate == 0 && numChannels == 0 && numStreams == 0 &&
      error == CLEARED && output.data == [] && output.size == 0 && output.capacity == 0 && output.readPos == 0
    }
  }

  /**
   * struct mux_decoder.  `inputBuf` is the codec data of the framing
   * adapters (their private input buffer), null when none is allocated.
   */
  class Decoder {
    var codecType: int
    var ops: Option<Ops>
    var numStreams: int
    const audio: MuxBuffer
    const side: MuxBuffer
    var error: ErrorInfo
    var inputBuf: MuxBuffer?

    ghost predicate Valid()
      reads this, audio, side, inputBuf
    {
      audio != side && audio.Valid() && side.Valid() &&
      (inputBuf != null ==> inputBuf != audio && inputBuf != side && inputBuf.Valid())
    }

    /** A decoder fresh from calloc: every field zero. */
    constructor ()
      ensures Valid() && Zeroed() && fresh(audio) && fresh(side)
    {
      codecType, ops, numStreams := 0, None, 0;
      error := CLEARED;
      inputBuf := null;
      audio := new MuxBuffer();
      side := new MuxBuffer();
    }

    /** memset to zero, after the buffers have been released. */
    method Clear()
      requires Valid()
      modifies this, audio, side
      ensures Valid() && Zeroed()
    {
      inputBuf := null;
      audio.Deinit();
      side.Deinit();
      codecType, ops, numStreams := 0, None, 0;
      error := CLEARED;
    }

    /**
     * The second half of mux_decoder_init: the fields recorded, empty
     * 4096-byte audio and 1024-byte side buffers, and the adapter's own
     * set-up; both buffers are released again if that fails.
     */
    method Open(c: int, o: Option<Ops>, n: int, adapterInit: int, adapterError: Option<ErrorInfo>) returns (r: int)
      requires Valid() && inputBuf == null && error == CLEARED
      modifies this, audio, side
      ensures Valid() && r == (if Framing(c) then OK else adapterInit)
      ensures Opened(c, o, n, r, if Framing(c) then CLEARED else AfterAdapter(CLEARED, adapterError))
      ensures inputBuf != null ==> fresh(inputBuf)
    {
      codecType, ops, numStreams := c, o, n;
      r := audio.Init(4096);
      r := side.Init(1024);
      if Framing(c) {
        var data := new MuxBuffer();
        r := data.Init(4096);
        inputBuf := data;
      } else {
        r := adapterInit;
        error := AfterAdapter(error, adapterError);
      }
      if r != OK {
        audio.Deinit();
        side.Deinit();
      }
    }

    /** What mux_decoder_init leaves once the adapter's set-up has returned `r` and left the slot `slot`. */
    ghost predicate Opened(c: int, o: Option<Ops>, n: int, r: int, slot: ErrorInfo)
      reads this, audio, side, inputBuf
    {
      Valid() && codecType == c && ops == o && numStreams == n && error == slot &&
      audio.Unread() == [] && side.Unread() == [] &&
      audio.capacity == (if r == OK then 4096 else 0) &&
      side.capacity == (if r == OK then 1024 else 0) &&
      (Framing(c) <==> inputBuf != null) &&
      (inputBuf != null ==> inputBuf.Unread() == [] && inputBuf.capacity == 4096)
    }

    ghost predicate Zeroed()
      reads this, audio, side
    {
      codecType == 0 && ops.None? && numStreams == 0 && error == CLEARED && inputBuf == null &&
      audio.data == [] && audio.size == 0 && audio.capacity == 0 && audio.readPos == 0 &&
      side.data == [] && side.size == 0 && side.capacity == 0 && side.readPos == 0
    }
  }

  /**
   * mux_encoder_init.  A stream count other than 1 or 2 is refused before
   * the struct is touched; otherwise the struct is zeroed, a codec without
   * an encoder gives NOCODEC, and the instance is set up with an empty
   * 4096-byte output buffer.  The adapter's init result is passed through,
   * and on failure the output buffer is released again.  `adapterInit`
   * is that result for the adapters not modelled here, `adapterError`
   * what such an adapter records in the freshly zeroed error slot, and
   * `adapterOutput` the bytes it writes to the output buffer (the Opus
   * and Vorbis adapters flush their Ogg header pages there).
   */
  method EncoderInit(enc: Encoder?, codecType: int, sampleRate: int, numChannels: int, numStreams: int,
                     build: Build, adapterInit: int, adapterError: Option<ErrorInfo>, adapterOutput: seq<byte>)
    returns (r: int)
    requires enc != null ==> enc.Valid()
    modifies if enc == null then {} else {enc, enc.output}
    ensures enc == null ==> r == INVAL
    ensures enc != null ==> enc.Valid()
    ensures enc != null && numStreams != 1 && numStreams != 2 ==>
      r == INVAL && unchanged(enc, enc.output)
    ensures enc != null && (numStreams == 1 || numStreams == 2) ==>
      var ops := CodecOps(codecType, build);
      var initResult := if Framing(codecType) then OK else adapterInit;
      if ops.None? || !ops.value.encoder then r == NOCODEC && enc.Zeroed()
      else
        r == initResult &&
        enc.codecType == codecType && enc.ops == ops && enc.sampleRate == sampleRate &&
        enc.numChannels == numChannels && enc.numStreams == numStreams &&
        enc.error == (if Framing(codecType) then CLEARED else AfterAdapter(CLEARED, adapterError)) &&
        var written := if Framing(codecType) then [] else adapterOutput;
        enc.output.Unread() == (if r == OK then written else []) &&
        enc.output.capacity == (if r == OK then GrownCapacity(4096, |written|) else 0)
  {
    if enc == null {
      return INVAL;
    }
    if numStreams != 1 && numStreams != 2 {
      return INVAL;
    }
    enc.Clear();
    var ops := CodecOps(codecType, build);
    if ops.None? || !ops.value.encoder {
      return NOCODEC;
    }
    enc.codecType, enc.ops, enc.sampleRate, enc.numChannels, enc.numStreams := codecType, ops, sampleRate, numChannels, numStreams;
    r := enc.output.Init(4096);
    if Framing(codecType) {
      r := OK;
    } else {
      var w := enc.output.Write(adapterOutput);
      r := adapterInit;
      enc.error := AfterAdapter(enc.error, adapterError);
    }
    if r != OK {
      enc.output.Deinit();
    }
  }

  /** mux_encoder_deinit: nothing for a null pointer; otherwise the output buffer is freed and the struct zeroed. */
  method EncoderDeinit(enc: Encoder?)
    requires enc != null ==> enc.Valid()
    modifies if enc == null then {} else {enc, enc.output}
    ensures enc != null ==> enc.Valid() && enc.Zeroed()
  {
    if enc == null {
      return;
    }
    enc.Clear();
  }

  /**
   * mux_decoder_init: as for the encoder, with an empty 4096-byte audio
   * buffer and an empty 1024-byte side buffer; the framing adapters
   * allocate their own 4096-byte input buffer.  On adapter failure both
   * output buffers are released.
   */
  method DecoderInit(dec: Decoder?, codecType: int, numStreams: int, build: Build, adapterInit: int,
                     adapterError: Option<ErrorInfo>)
    returns (r: int)
    requires dec != null ==> dec.Valid()
    modifies if dec == null then {} else {dec, dec.audio, dec.side}
    ensures dec == null ==> r == INVAL
    ensures dec != null ==> dec.Valid()
    ensures dec != null && numStreams != 1 && numStreams != 2 ==>
      r == INVAL && unchanged(dec, dec.audio, dec.side)
    ensures dec != null && (numStreams == 1 || numStreams == 2) ==>
      var ops := CodecOps(codecType, build);
      var initResult := if Framing(codecType) then OK else adapterInit;
      if ops.None? || !ops.value.decoder then r == NOCODEC && dec.Zeroed()
      else
        r == initResult &&
        dec.Opened(codecType, ops, numStreams, r, if Framing(codecType) then CLEARED else AfterAdapter(CLEARED, adapterError)) &&
        (dec.inputBuf != null ==> fresh(dec.inputBuf))
  {
    if dec == null {
      return INVAL;
    }
    if numStreams != 1 && numStreams != 2 {
      return INVAL;
    }
    dec.Clear();
    var ops := CodecOps(codecType, build);
    if ops.None? || !ops.value.decoder {
      return NOCODEC;
    }
    r := dec.Open(codecType, ops, numStreams, adapterInit, adapterError);
  }

  /**
   * mux_decoder_deinit: nothing for a null pointer; otherwise the adapter
   * releases its input buffer, both output buffers are freed and the
   * struct is zeroed.
   */
  method DecoderDeinit(dec: Decoder?)
    requires dec != null ==> dec.Valid()
    modifies if dec == null then {} else {dec, dec.audio, dec.side}
    ensures dec != null ==> dec.Valid() && dec.Zeroed()
  {
    if dec == null {
      return;
    }
    dec.Clear();
  }

  /**
   * What a framing adapter's encoder does with one input: the payload of
   * the one packet it writes (None when it writes nothing) and the number
   * of input bytes it consumes.  PCM and side-channel input is framed
   * unchanged; A-law and mu-law audio is companded one byte per whole
   * 16-bit sample, and a trailing odd byte is left unconsumed.
   */
  datatype Encoding = Encoding(payload: Option<seq<byte>>, consumed: nat)

  function FramedEncoding(codec: int, input: seq<byte>, streamType: int): (e: Encoding)
    requires Framing(codec)
    ensures e.payload.None? <==> e.consumed == 0
    ensures e.consumed <= |input|
    ensures e.payload.Some? && (codec == CODEC_PCM || streamType != STREAM_AUDIO) ==>
      e.payload.value == input && e.consumed == |input|
    ensures e.payload.Some? && codec != CODEC_PCM && streamType == STREAM_AUDIO ==>
      e.consumed == 2 * |e.payload.value|
  {
    if |input| == 0 then Encoding(None, 0)
    else if codec == CODEC_PCM || streamType != STREAM_AUDIO then Encoding(Some(input), |input|)
    else if |input| < 2 then Encoding(None, 0)
    else if codec == CODEC_ALAW then Encoding(Some(Alaw.EncodeAll(Samples(input))), 2 * (|input| / 2))
    else Encoding(Some(Mulaw.EncodeAll(Samples(input))), 2 * (|input| / 2))
  }

  /** The bytes an encoding appends to the output buffer: one packet, or nothing. */
  function EncodedBytes(e: Encoding, streamType: int, numStreams: int): seq<byte>
  {
    if e.payload.Some? then Frame.FrameBytes(e.payload.value, streamType, numStreams) else []
  }

  /** The adapter an encoder's table entry points at, when it has an encoder. */
  predicate HasEncoder(ops: Option<Ops>)
  {
    ops.Some? && ops.value.encoder
  }

  predicate HasDecoder(ops: Option<Ops>)
  {
    ops.Some? && ops.value.decoder
  }

  /**
   * mux_encoder_encode: INVAL (nothing consumed, nothing written) without
   * an instance or an encoder; otherwise the adapter's own result.
   * `adapterResult` is that result for the adapters not modelled here,
   * whose effect on the output buffer is not described, and
   * `adapterError` what such an adapter records in the error slot.  The
   * framing adapters never record an error.
   */
  method EncoderEncode(enc: Encoder?, input: seq<byte>, streamType: int, adapterResult: int,
                       adapterError: Option<ErrorInfo>)
    returns (r: int, consumed: nat)
    requires enc != null ==> enc.Valid()
    modifies if enc == null then {} else {enc, enc.output}
    ensures enc != null ==> enc.Valid()
    ensures enc != null ==>
      enc.codecType == old(enc.codecType) && enc.ops == old(enc.ops) && enc.sampleRate == old(enc.sampleRate) &&
      enc.numChannels == old(enc.numChannels) && enc.numStreams == old(enc.numStreams)
    ensures enc != null ==>
      enc.error == (if HasEncoder(enc.ops) && !Framing(enc.ops.value.codec) then AfterAdapter(old(enc.error), adapterError)
                    else old(enc.error))
    ensures enc == null || !HasEncoder(enc.ops) ==>
      r == INVAL && consumed == 0 && (enc != null ==> unchanged(enc.output))
    ensures enc != null && HasEncoder(enc.ops) && Framing(enc.ops.value.codec) ==>
      var e := FramedEncoding(enc.ops.value.codec, input, streamType);
      r == OK && consumed == e.consumed &&
      enc.output.Unread() == old(enc.output.Unread()) + EncodedBytes(e, streamType, enc.numStreams)
    ensures enc != null && HasEncoder(enc.ops) && !Framing(enc.ops.value.codec) ==> r == adapterResult
  {
    consumed := 0;
    if enc == null || !HasEncoder(enc.ops) {
      return INVAL, 0;
    }
    var codec := enc.ops.value.codec;
    if codec == CODEC_PCM {
      r, consumed := Pcm.EncoderEncode(enc.output, input, streamType, enc.numStreams);
    } else if codec == CODEC_ALAW {
      r, consumed := Alaw.EncoderEncode(enc.output, input, streamType, enc.numStreams);
    } else if codec == CODEC_MULAW {
      r, consumed := Mulaw.EncoderEncode(enc.output, input, streamType, enc.numStreams);
    } else {
      r := adapterResult;
      enc.error := AfterAdapter(enc.error, adapterError);
    }
  }

  /**
   * mux_encoder_read: INVAL without an instance or an encoder; the
   * framing adapters hand out up to `outputSize` bytes of the muxed
   * output, in order, or AGAIN with nothing when it is empty.
   */
  method EncoderRead(enc: Encoder?, outputSize: nat, adapterResult: int) returns (r: int, output: seq<byte>)
    requires enc != null ==> enc.Valid()
    modifies if enc == null then {} else {enc.output}
    ensures enc != null ==> enc.Valid()
    ensures enc == null || !HasEncoder(enc.ops) ==>
      r == INVAL && output == [] && (enc != null ==> unchanged(enc.output))
    ensures enc != null && HasEncoder(enc.ops) && Framing(enc.ops.value.codec) ==>
      var before := old(enc.output.Unread());
      (before == [] ==> r == AGAIN && output == []) &&
      (before != [] ==> r == OK && output == before[..Min(outputSize, |before|)]) &&
      enc.output.Unread() == before[|output|..]
    ensures enc != null && HasEncoder(enc.ops) && !Framing(enc.ops.value.codec) ==> r == adapterResult
  {
    output := [];
    if enc == null || !HasEncoder(enc.ops) {
      return INVAL, [];
    }
    if Framing(enc.ops.value.codec) {
      r, output := enc.output.Read(outputSize);
    } else {
      r := adapterResult;
    }
  }

  /**
   * mux_encoder_finalize: INVAL without an instance or a codec; OK when the
   * codec has no finalize entry; the framing adapters have nothing to
   * flush and return OK.
   */
  function EncoderFinalize(enc: Encoder?, adapterResult: int): (r: int)
    reads enc
    ensures enc == null || enc.ops.None? ==> r == INVAL
    ensures enc != null && enc.ops.Some? && (!enc.ops.value.encoder || Framing(enc.ops.value.codec)) ==> r == OK
    ensures enc != null && HasEncoder(enc.ops) && !Framing(enc.ops.value.codec) ==> r == adapterResult
  {
    if enc == null || enc.ops.None? then INVAL
    else if !enc.ops.value.encoder then OK
    else if Framing(enc.ops.value.codec) then OK
    else adapterResult
  }

  /**
   * The conversion a framing decoder applies to audio payloads: none for
   * PCM, G.711 expansion to little-endian 16-bit samples otherwise.
   */
  function PayloadTransform(codec: int): seq<byte> -> seq<byte>
  {
    if codec == CODEC_ALAW then Alaw.DecodedPcm
    else if codec == CODEC_MULAW then Mulaw.DecodedPcm
    else Pcm.Verbatim
  }

  /**
   * mux_decoder_decode: INVAL without an instance or a decoder; a framing
   * adapter without its input buffer also gives INVAL; otherwise the
   * input is buffered and every whole packet routed, as Demux describes.
   * An adapter not modelled here returns `adapterResult` and records
   * `adapterError` in the error slot.
   */
  method DecoderDecode(dec: Decoder?, input: seq<byte>, adapterResult: int, adapterError: Option<ErrorInfo>)
    returns (r: int, consumed: nat)
    requires dec != null ==> dec.Valid()
    modifies if dec == null then {} else {dec, dec.audio, dec.side, dec.inputBuf}
    ensures dec != null ==> dec.Valid()
    ensures dec != null ==>
      dec.codecType == old(dec.codecType) && dec.ops == old(dec.ops) &&
      dec.numStreams == old(dec.numStreams) && dec.inputBuf == old(dec.inputBuf)
    ensures dec != null ==>
      dec.error == (if HasDecoder(dec.ops) && !Framing(dec.ops.value.codec) then AfterAdapter(old(dec.error), adapterError)
                    else old(dec.error))
    ensures dec == null || !HasDecoder(dec.ops) || (Framing(dec.ops.value.codec) && dec.inputBuf == null) ==>
      r == INVAL && consumed == 0 && (dec != null ==> unchanged(dec.audio, dec.side))
    ensures dec != null && HasDecoder(dec.ops) && Framing(dec.ops.value.codec) && dec.inputBuf != null ==>
      var d := Demux.Demux(old(dec.inputBuf.Unread()) + input, Demux.SCRATCH_CAPACITY, dec.numStreams,
                           PayloadTransform(dec.ops.value.codec));
      r == d.status && consumed == (if r == OK then |input| else 0) && dec.inputBuf.Unread() == d.rest &&
      dec.audio.Unread() == old(dec.audio.Unread()) + d.audio && dec.side.Unread() == old(dec.side.Unread()) + d.side
    ensures dec != null && HasDecoder(dec.ops) && !Framing(dec.ops.value.codec) ==> r == adapterResult
  {
    consumed := 0;
    if dec == null || !HasDecoder(dec.ops) {
      return INVAL, 0;
    }
    var codec := dec.ops.value.codec;
    if !Framing(codec) {
      dec.error := AfterAdapter(dec.error, adapterError);
      return adapterResult, 0;
    }
    if dec.inputBuf == null {
      return INVAL, 0;
    }
    if codec == CODEC_PCM {
      r, consumed := Pcm.DecoderDecode(dec.inputBuf, dec.audio, dec.side, input, dec.numStreams);
    } else if codec == CODEC_ALAW {
      r, consumed := Alaw.DecoderDecode(dec.inputBuf, dec.audio, dec.side, input, dec.numStreams);
    } else {
      r, consumed := Mulaw.DecoderDecode(dec.inputBuf, dec.audio, dec.side, input, dec.numStreams);
    }
  }

  /**
   * mux_decoder_read: INVAL without an instance or a decoder; the framing
   * adapters hand out decoded audio first, side data only once the audio
   * is drained, and AGAIN when both are empty.
   */
  method DecoderRead(dec: Decoder?, outputSize: nat, adapterResult: int)
    returns (r: int, output: seq<byte>, streamType: int)
    requires dec != null ==> dec.Valid()
    modifies if dec == null then {} else {dec.audio, dec.side}
    ensures dec != null ==> dec.Valid()
    ensures dec == null || !HasDecoder(dec.ops) ==>
      r == INVAL && output == [] && (dec != null ==> unchanged(dec.audio, dec.side))
    ensures dec != null && HasDecoder(dec.ops) && Framing(dec.ops.value.codec) ==>
      var audio, side := old(dec.audio.Unread()), old(dec.side.Unread());
      (audio != [] ==>
         r == OK && streamType == STREAM_AUDIO &&
         output == audio[..Min(outputSize, |audio|)] &&
         dec.audio.Unread() == audio[|output|..] && dec.side.Unread() == side) &&
      (audio == [] && side != [] ==>
         r == OK && streamType == STREAM_SIDE_CHANNEL &&
         output == side[..Min(outputSize, |side|)] &&
         dec.audio.Unread() == [] && dec.side.Unread() == side[|output|..]) &&
      (audio == [] && side == [] ==> r == AGAIN && output == [])
    ensures dec != null && HasDecoder(dec.ops) && !Framing(dec.ops.value.codec) ==> r == adapterResult
  {
    output, streamType := [], STREAM_AUDIO;
    if dec == null || !HasDecoder(dec.ops) {
      return INVAL, [], STREAM_AUDIO;
    }
    if Framing(dec.ops.value.codec) {
      r, output, streamType := Demux.ReadDecoded(dec.audio, dec.side, outputSize);
    } else {
      r := adapterResult;
    }
  }

  /** mux_decoder_finalize: as for the encoder. */
  function DecoderFinalize(dec: Decoder?, adapterResult: int): (r: int)
    reads dec
    ensures dec == null || dec.ops.None? ==> r == INVAL
    ensures dec != null && dec.ops.Some? && (!dec.ops.value.decoder || Framing(dec.ops.value.codec)) ==> r == OK
    ensures dec != null && HasDecoder(dec.ops) && !Framing(dec.ops.value.codec) ==> r == adapterResult
  {
    if dec == null || dec.ops.None? then INVAL
    else if !dec.ops.value.decoder then OK
    else if Framing(dec.ops.value.codec) then OK
    else adapterResult
  }

  /** mux_encoder_get_error: the instance's own slot, None (a null pointer) without an instance. */
  function EncoderGetError(enc: Encoder?): (e: Option<ErrorInfo>)
    reads enc
    ensures e.None? <==> enc == null
  {
    if enc == null then None else Some(enc.error)
  }

  function DecoderGetError(dec: Decoder?): (e: Option<ErrorInfo>)
    reads dec
    ensures e.None? <==> dec == null
  {
    if dec == null then None else Some(dec.error)
  }

  /**
   * mux_encoder_set_error: overwrites all five fields of the slot, a
   * missing message replaced by the code's own; nothing else changes.
   */
  method EncoderSetError(enc: Encoder?, code: int, message: Option<string>, libraryName: Option<string>,
                         libraryCode: int, libraryMsg: Option<string>)
    modifies enc
    ensures enc != null ==> EncoderGetError(enc) == Some(Recorded(code, message, libraryName, libraryCode, libraryMsg))
    ensures enc != null ==>
      enc.codecType == old(enc.codecType) && enc.ops == old(enc.ops) &&
      enc.sampleRate == old(enc.sampleRate) && enc.numChannels == old(enc.numChannels) &&
      enc.numStreams == old(enc.numStreams)
  {
    if enc != null {
      enc.error := Recorded(code, message, libraryName, libraryCode, libraryMsg);
    }
  }

  method DecoderSetError(dec: Decoder?, code: int, message: Option<string>, libraryName: Option<string>,
                         libraryCode: int, libraryMsg: Option<string>)
    modifies dec
    ensures dec != null ==> DecoderGetError(dec) == Some(Recorded(code, message, libraryName, libraryCode, libraryMsg))
    ensures dec != null ==>
      dec.codecType == old(dec.codecType) && dec.ops == old(dec.ops) &&
      dec.numStreams == old(dec.numStreams) && dec.inputBuf == old(dec.inputBuf)
  {
    if dec != null {
      dec.error := Recorded(code, message, libraryName, libraryCode, libraryMsg);
    }
  }

  /** mux_encoder_clear_error: the slot zeroed, so its code reads OK again; nothing else changes. */
  method EncoderClearError(enc: Encoder?)
    modifies enc
    ensures enc != null ==> EncoderGetError(enc) == Some(CLEARED) && enc.error.code == OK
    ensures enc != null ==>
      enc.codecType == old(enc.codecType) && enc.ops == old(enc.ops) &&
      enc.sampleRate == old(enc.sampleRate) && enc.numChannels == old(enc.numChannels) &&
      enc.numStreams == old(enc.numStreams)
  {
    if enc != null {
      enc.error := CLEARED;
    }
  }

  method DecoderClearError(dec: Decoder?)
    modifies dec
    ensures dec != null ==> DecoderGetError(dec) == Some(CLEARED) && dec.error.code == OK
    ensures dec != null ==>
      dec.codecType == old(dec.codecType) && dec.ops == old(dec.ops) &&
      dec.numStreams == old(dec.numStreams) && dec.inputBuf == old(dec.inputBuf)
  {
    if dec != null {
      dec.error := CLEARED;
    }
  }
}
