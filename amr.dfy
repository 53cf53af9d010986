/**
 * What src/codec_amr.c (AMR-NB) and src/codec_amr_wb.c (AMR-WB) have in
 * common.  The two adapters share their structure line for line and differ
 * only in constants: the sample rate, the block of samples the speech
 * codec consumes at a time, the table of storage frame sizes and the
 * messages and library names they report.  Those constants are a Variant;
 * AmrNb and AmrWb supply the two values.
 *
 * The speech codecs themselves are libraries: an encoder is a function
 * from (mode, one block of samples) to a frame or a failure code, a
 * decoder a function from a frame to one block of samples.
 */
module Amr {
  import opened Types
  import opened Errors
  import opened Buffer
  import Frame
  import Demux
  import Core

  /**
   * The constants in which the two adapters differ.  `encoderBuilt` is
   * false for an AMR-WB build without its encoding library, where every
   * encoder entry point is a stub.
   */
  datatype Variant = Variant(
    sampleRate: int,
    blockSamples: nat,
    defaultMode: int,
    frameSizes: seq<int>,
    rateMessage: string,
    monoMessage: string,
    encoderInitMessage: string,
    encodeMessage: string,
    decoderInitMessage: string,
    encoderLibrary: string,
    decoderLibrary: string,
    encoderBuilt: bool,
    missingMessage: string)
  {
    predicate WellFormed()
    {
      blockSamples > 0 && |frameSizes| == 16
    }
  }

  /** What the library's encode call returns: a negative status, or a frame of the returned size. */
  datatype Encoded = Failed(code: int) | Coded(frame: seq<byte>)

  /** The frame type: bits 6..3 of the first byte of a storage frame. */
  function FrameType(b: byte): (t: nat)
    ensures t < 16
  {
    (b / 8) % 16
  }

  /** amr_get_frame_size / amr_wb_get_frame_size: the table entry for the frame type. */
  function FrameSize(v: Variant, b: byte): int
    requires v.WellFormed()
  {
    v.frameSizes[FrameType(b)]
  }

  // ---------------------------------------------------------------------
  // Encoder: samples are gathered into blocks of blockSamples; every full
  // block is encoded into one frame, written as one audio packet.
  // ---------------------------------------------------------------------

  /** The outcome of feeding samples to the block accumulator. */
  datatype Emitted = Emitted(status: int, bytes: seq<byte>, pending: seq<int16>, libraryCode: int)

  /**
   * The specification of the encode loop: `s` is the partial block left by
   * earlier calls followed by the new samples.  Each full block, in order,
   * is encoded; a successful frame is written as one audio packet, a
   * failure stops everything with ENCODE and leaves the failed block in
   * the accumulator; fewer than a block's worth of samples wait there.
   */
  function Emit(lib: (int, seq<int16>) -> Encoded, mode: int, block: nat, s: seq<int16>, numStreams: int): (e: Emitted)
    requires block > 0
    ensures e.status == OK || e.status == ENCODE
    ensures e.status == OK ==> |e.pending| < block && e.libraryCode == 0
    ensures e.status == ENCODE ==> |e.pending| == block
    decreases |s|
  {
    if |s| < block then Emitted(OK, [], s, 0)
    else match lib(mode, s[..block])
      case Failed(code) => Emitted(ENCODE, [], s[..block], code)
      case Coded(frame) =>
        var rest := Emit(lib, mode, block, s[block..], numStreams);
        rest.(bytes := Frame.FrameBytes(frame, STREAM_AUDIO, numStreams) + rest.bytes)
  }

  /** The full blocks at the front of `s`, in order. */
  function Chunks(s: seq<int16>, block: nat): (c: seq<seq<int16>>)
    requires block > 0
    ensures forall k | 0 <= k < |c| :: |c[k]| == block
    decreases |s|
  {
    if |s| < block then [] else [s[..block]] + Chunks(s[block..], block)
  }

  function Flatten(c: seq<seq<int16>>): seq<int16>
  {
    if c == [] then [] else c[0] + Flatten(c[1..])
  }

  /** The packets for a run of blocks the library encodes. */
  function Framed(lib: (int, seq<int16>) -> Encoded, mode: int, c: seq<seq<int16>>, numStreams: int): seq<byte>
  {
    if c == [] then []
    else
      var payload := match lib(mode, c[0]) case Coded(frame) => frame case Failed(_) => [];
      Frame.FrameBytes(payload, STREAM_AUDIO, numStreams) + Framed(lib, mode, c[1..], numStreams)
  }

  /** The samples after the last full block: fewer than a block. */
  function Leftover(s: seq<int16>, block: nat): (r: seq<int16>)
    requires block > 0
    ensures |r| < block
    decreases |s|
  {
    if |s| < block then s else Leftover(s[block..], block)
  }

  /** The blocks are `s` itself, cut into whole blocks, followed by the leftover samples. */
  lemma ChunksCover(s: seq<int16>, block: nat)
    requires block > 0
    ensures |Chunks(s, block)| * block + |Leftover(s, block)| == |s|
    ensures Flatten(Chunks(s, block)) + Leftover(s, block) == s
  {
    ChunksCount(s, block);
    ChunksFlatten(s, block);
  }

  /** As many whole blocks as fit, with fewer than a block left over. */
  lemma {:induction false} ChunksCount(s: seq<int16>, block: nat)
    requires block > 0
    ensures |Chunks(s, block)| * block + |Leftover(s, block)| == |s|
    decreases |s|
  {
    if |s| >= block {
      ChunksCount(s[block..], block);
      var k := |Chunks(s[block..], block)|;
      assert |Chunks(s, block)| == k + 1;
      assert (k + 1) * block == k * block + block;
    }
  }

  /** Laid end to end, the blocks and the leftover give back `s`. */
  lemma {:induction false} ChunksFlatten(s: seq<int16>, block: nat)
    requires block > 0
    ensures Flatten(Chunks(s, block)) + Leftover(s, block) == s
    decreases |s|
  {
    if |s| >= block {
      var rest := s[block..];
      ChunksFlatten(rest, block);
      var c := Chunks(rest, block);
      assert Chunks(s, block) == [s[..block]] + c;
      assert Chunks(s, block)[1..] == c;
      assert Flatten(Chunks(s, block)) == s[..block] + Flatten(c);
      assert Leftover(s, block) == Leftover(rest, block);
      assert s[..block] + rest == s;
    }
  }

  /**
   * When the library encodes every block, one call emits exactly one audio
   * packet per full block, in order, and leaves the leftover samples
   * waiting.
   */
  lemma {:induction false} EmitWhenCoded(lib: (int, seq<int16>) -> Encoded, mode: int, block: nat, s: seq<int16>,
                                        numStreams: int)
    requires block > 0
    requires forall k | 0 <= k < |Chunks(s, block)| :: lib(mode, Chunks(s, block)[k]).Coded?
    ensures Emit(lib, mode, block, s, numStreams)
         == Emitted(OK, Framed(lib, mode, Chunks(s, block), numStreams), Leftover(s, block), 0)
    decreases |s|
  {
    if |s| >= block {
      var c := Chunks(s, block);
      assert c[0] == s[..block];
      assert c[1..] == Chunks(s[block..], block);
      forall k | 0 <= k < |c[1..]|
        ensures lib(mode, Chunks(s[block..], block)[k]).Coded?
      {
        assert c[1..][k] == c[k + 1];
      }
      EmitWhenCoded(lib, mode, block, s[block..], numStreams);
    }
  }

  /**
   * When block k is the first the library rejects, the blocks before it
   * are written, the call fails with the library's code, and block k stays
   * in the accumulator to be retried.
   */
  lemma {:induction false} EmitWhenFailed(lib: (int, seq<int16>) -> Encoded, mode: int, block: nat, s: seq<int16>,
                                         numStreams: int, k: nat)
    requires block > 0 && k < |Chunks(s, block)|
    requires forall j | 0 <= j < k :: lib(mode, Chunks(s, block)[j]).Coded?
    requires lib(mode, Chunks(s, block)[k]).Failed?
    ensures Emit(lib, mode, block, s, numStreams)
         == Emitted(ENCODE, Framed(lib, mode, Chunks(s, block)[..k], numStreams), Chunks(s, block)[k],
                    lib(mode, Chunks(s, block)[k]).code)
    decreases |s|
  {
    var c := Chunks(s, block);
    assert c[0] == s[..block];
    if k > 0 {
      assert c[1..] == Chunks(s[block..], block);
      forall j | 0 <= j < k - 1
        ensures lib(mode, Chunks(s[block..], block)[j]).Coded?
      {
        assert c[1..][j] == c[j + 1];
      }
      assert c[1..][k - 1] == c[k];
      EmitWhenFailed(lib, mode, block, s[block..], numStreams, k - 1);
      assert c[..k][1..] == c[1..][..k - 1];
    }
  }

  /** The bytes finalize writes for the samples left waiting: the block, zero padded, if the library returns a non-empty frame. */
  function Flush(lib: (int, seq<int16>) -> Encoded, mode: int, block: nat, pending: seq<int16>, numStreams: int): seq<byte>
    requires |pending| <= block
  {
    if pending == [] then []
    else match lib(mode, pending + Silence(block - |pending|))
      case Coded(frame) => if |frame| > 0 then Frame.FrameBytes(frame, STREAM_AUDIO, numStreams) else []
      case Failed(_) => []
  }

  /** n zero samples. */
  function Silence(n: nat): (r: seq<int16>)
    ensures |r| == n && forall i | 0 <= i < n :: r[i] == 0
  {
    if n == 0 then [] else [0] + Silence(n - 1)
  }

  /** The samples finalize encodes in all: `s` completed with silence to a whole number of blocks. */
  function Padded(s: seq<int16>, block: nat): seq<int16>
    requires block > 0
  {
    var left := Leftover(s, block);
    if left == [] then s else s + Silence(block - |left|)
  }

  /**
   * Encoding and then finalizing, with a library that encodes every block
   * into a non-empty frame: every sample lands in exactly one packet, in
   * order, and the last, partial block is completed with silence.
   */
  lemma EncodeThenFlush(lib: (int, seq<int16>) -> Encoded, mode: int, block: nat, s: seq<int16>, numStreams: int)
    requires block > 0
    requires forall x :: lib(mode, x).Coded? && |lib(mode, x).frame| > 0
    ensures var e := Emit(lib, mode, block, s, numStreams);
      e.status == OK && Leftover(Padded(s, block), block) == [] &&
      e.bytes + Flush(lib, mode, block, e.pending, numStreams) == Framed(lib, mode, Chunks(Padded(s, block), block), numStreams)
  {
    var e := Emit(lib, mode, block, s, numStreams);
    EmitWhenCoded(lib, mode, block, s, numStreams);
    var left := Leftover(s, block);
    if left == [] {
      AppendEmptyBytes(e.bytes);
    } else {
      var last := left + Silence(block - |left|);
      ChunksPrefix(s, block, Silence(block - |left|));
      assert Chunks(last, block) == [last] && Leftover(last, block) == [] by {
        assert last[..block] == last && last[block..] == [];
      }
      LeftoverPrefix(s, block, Silence(block - |left|));
      FramedAppend(lib, mode, Chunks(s, block), [last], numStreams);
      assert Framed(lib, mode, [last], numStreams) == Flush(lib, mode, block, e.pending, numStreams) by {
        AppendEmptyBytes(Frame.FrameBytes(lib(mode, last).frame, STREAM_AUDIO, numStreams));
      }
    }
  }

  lemma AppendEmptyBytes(a: seq<byte>)
    ensures a + [] == a
  {
  }

  /**
   * Appending samples after the whole blocks of `s` keeps those blocks and
   * cuts the rest, starting at the leftover samples, on its own.
   */
  lemma {:induction false} ChunksPrefix(s: seq<int16>, block: nat, t: seq<int16>)
    requires block > 0
    ensures Chunks(s + t, block) == Chunks(s, block) + Chunks(Leftover(s, block) + t, block)
    decreases |s|
  {
    if |s| >= block {
      assert (s + t)[..block] == s[..block];
      assert (s + t)[block..] == s[block..] + t;
      ChunksPrefix(s[block..], block, t);
    }
  }

  lemma {:induction false} LeftoverPrefix(s: seq<int16>, block: nat, t: seq<int16>)
    requires block > 0
    ensures Leftover(s + t, block) == Leftover(Leftover(s, block) + t, block)
    decreases |s|
  {
    if |s| >= block {
      assert (s + t)[block..] == s[block..] + t;
      LeftoverPrefix(s[block..], block, t);
    }
  }

  lemma {:induction false} FramedAppend(lib: (int, seq<int16>) -> Encoded, mode: int, a: seq<seq<int16>>,
                                       b: seq<seq<int16>>, numStreams: int)
    ensures Framed(lib, mode, a + b, numStreams) == Framed(lib, mode, a, numStreams) + Framed(lib, mode, b, numStreams)
    decreases |a|
  {
    if a == [] {
      assert a + b == b;
    } else {
      assert (a + b)[0] == a[0];
      assert (a + b)[1..] == a[1..] + b;
      FramedAppend(lib, mode, a[1..], b, numStreams);
    }
  }

  /** The private state of an AMR encoder (struct amr_encoder_data), minus the library handle. */
  class EncoderData {
    var mode: int
    var dtx: bool
    /** int16_t input_buf[FRAME_SAMPLES]: the block being gathered. */
    const inputBuf: array<int16>
    var inputSamples: nat

    ghost predicate Valid()
      reads this
    {
      inputBuf.Length > 0 && inputSamples <= inputBuf.Length
    }

    /** The samples gathered so far. */
    ghost function Pending(): seq<int16>
      reads this, inputBuf
      requires Valid()
    {
      inputBuf[..inputSamples]
    }

    /** calloc, then the defaults: the given mode, no DTX, nothing gathered. */
    constructor (blockSamples: nat, mode: int)
      requires blockSamples > 0
      ensures Valid() && Pending() == [] && inputBuf.Length == blockSamples
      ensures this.mode == mode && !dtx
      ensures fresh(inputBuf)
    {
      this.mode := mode;
      dtx := false;
      inputBuf := new int16[blockSamples](_ => 0);
      inputSamples := 0;
    }

    /** memcpy of `chunk` after the gathered samples. */
    method Gather(chunk: seq<int16>)
      requires Valid() && inputSamples + |chunk| <= inputBuf.Length
      modifies this, inputBuf
      ensures Valid() && Pending() == old(Pending()) + chunk
      ensures mode == old(mode) && dtx == old(dtx)
    {
      var start := inputSamples;
      forall k | 0 <= k < |chunk| {
        inputBuf[start + k] := chunk[k];
      }
      inputSamples := start + |chunk|;
    }

    /** memset of the rest of the block to zero. */
    method PadWithSilence()
      requires Valid()
      modifies inputBuf
      ensures inputBuf[..] == old(Pending()) + Silence(inputBuf.Length - inputSamples)
    {
      var start := inputSamples;
      forall k | start <= k < inputBuf.Length {
        inputBuf[k] := 0;
      }
    }
  }

  /**
   * The encode loop proper (the `while (samples_available > 0)` loop):
   * copy into the block, encode it when full, write the frame, start over.
   * Proved against Emit on the gathered samples followed by the new ones.
   */
  method EncodeSamples(output: MuxBuffer, data: EncoderData, samples: seq<int16>,
                       lib: (int, seq<int16>) -> Encoded, numStreams: int)
    returns (r: int, libraryCode: int)
    requires output.Valid() && data.Valid() && samples != []
    modifies output, data, data.inputBuf
    ensures output.Valid() && data.Valid() && output.readPos == old(output.readPos)
    ensures data.mode == old(data.mode) && data.dtx == old(data.dtx)
    ensures var e := Emit(lib, data.mode, data.inputBuf.Length, old(data.Pending()) + samples, numStreams);
      r == e.status && libraryCode == e.libraryCode &&
      output.Unread() == old(output.Unread()) + e.bytes && data.Pending() == e.pending
  {
    var block := data.inputBuf.Length;
    var mode := data.mode;
    ghost var dtx, readPos := data.dtx, output.readPos;
    ghost var before := output.Unread();
    ghost var target := Emit(lib, mode, block, data.Pending() + samples, numStreams);
    ghost var written: seq<byte> := [];
    AppendEmptyBytes(before);
    PrefixedEmpty(target);
    assert samples[0..] == samples;
    var i := 0;
    while i < |samples|
      invariant 0 <= i <= |samples| && data.Valid() && output.Valid()
      invariant data.inputBuf.Length == block && data.mode == mode && data.dtx == dtx
      invariant output.readPos == readPos
      invariant i > 0 ==> data.inputSamples < block
      invariant output.Unread() == before + written
      invariant target == Prefixed(written, Emit(lib, mode, block, data.Pending() + samples[i..], numStreams))
      decreases |samples| - i, data.inputSamples
    {
      var next;
      ghost var bytes;
      r, libraryCode, next, bytes := EncodeTurn(output, data, samples, i, lib, numStreams, written, target);
      Demux.AppendAssoc(before, written, bytes);
      written := written + bytes;
      i := next;
      if r != OK {
        return;
      }
    }
    assert samples[i..] == [];
    AppendEmptyPending(data.Pending());
    AppendEmptyBytes(written);
    r, libraryCode := OK, 0;
  }

  /**
   * One turn of the encode loop: as many samples as fit are copied after
   * the gathered ones and a full block is encoded.  `bytes` is what it
   * writes; on success the rest of the run is still to come, on failure
   * the run's outcome is settled.
   */
  method EncodeTurn(output: MuxBuffer, data: EncoderData, samples: seq<int16>, i: nat,
                    lib: (int, seq<int16>) -> Encoded, numStreams: int, ghost written: seq<byte>, ghost target: Emitted)
    returns (r: int, libraryCode: int, next: nat, ghost bytes: seq<byte>)
    requires output.Valid() && data.Valid() && i < |samples|
    requires target == Prefixed(written, Emit(lib, data.mode, data.inputBuf.Length, data.Pending() + samples[i..], numStreams))
    modifies output, data, data.inputBuf
    ensures output.Valid() && data.Valid() && output.readPos == old(output.readPos)
    ensures data.mode == old(data.mode) && data.dtx == old(data.dtx)
    ensures i <= next <= |samples| && output.Unread() == old(output.Unread()) + bytes
    ensures r == OK ==> data.inputSamples < data.inputBuf.Length
    ensures r == OK ==> next > i || data.inputSamples < old(data.inputSamples)
    ensures r == OK ==>
      target == Prefixed(written + bytes, Emit(lib, data.mode, data.inputBuf.Length, data.Pending() + samples[next..], numStreams))
    ensures r != OK ==> r == target.status && libraryCode == target.libraryCode
    ensures r != OK ==> written + bytes == target.bytes && data.Pending() == target.pending
  {
    var block := data.inputBuf.Length;
    var copy := Min(|samples| - i, block - data.inputSamples);
    ghost var pending := data.Pending();
    ghost var e := Emit(lib, data.mode, block, pending + samples[i..i + copy], numStreams);
    EmitSplit(lib, data.mode, block, pending, samples, i, copy, written, numStreams);
    r, libraryCode := GatherAndEncode(output, data, samples[i..i + copy], lib, numStreams);
    next, bytes := i + copy, e.bytes;
  }

  /**
   * One pass of the loop body: `chunk` is copied after the gathered
   * samples and, if that fills the block, the block is encoded and written.
   */
  method GatherAndEncode(output: MuxBuffer, data: EncoderData, chunk: seq<int16>,
                         lib: (int, seq<int16>) -> Encoded, numStreams: int)
    returns (r: int, libraryCode: int)
    requires output.Valid() && data.Valid() && data.inputSamples + |chunk| <= data.inputBuf.Length
    modifies output, data, data.inputBuf
    ensures output.Valid() && data.Valid() && output.readPos == old(output.readPos)
    ensures data.mode == old(data.mode) && data.dtx == old(data.dtx)
    ensures data.inputSamples < data.inputBuf.Length || r != OK
    ensures var e := Emit(lib, data.mode, data.inputBuf.Length, old(data.Pending()) + chunk, numStreams);
      r == e.status && libraryCode == e.libraryCode &&
      output.Unread() == old(output.Unread()) + e.bytes && data.Pending() == e.pending
  {
    data.Gather(chunk);
    if data.inputSamples < data.inputBuf.Length {
      AppendEmptyBytes(output.Unread());
      return OK, 0;
    }
    assert data.inputBuf[..] == data.Pending();
    ghost var full := data.Pending();
    assert full == old(data.Pending()) + chunk && |full| == data.inputBuf.Length;
    EmitBlock(lib, data.mode, full, numStreams);
    r, libraryCode := EncodeBlock(output, data, lib, numStreams);
    assert data.inputBuf[..] == full;
    if r == OK {
      assert data.Pending() == [];
    }
  }

  /**
   * The `if (input_samples == FRAME_SAMPLES)` step: the full block is
   * encoded; on success its frame is written as one audio packet and the
   * accumulator restarts, on failure nothing changes.
   */
  method EncodeBlock(output: MuxBuffer, data: EncoderData, lib: (int, seq<int16>) -> Encoded, numStreams: int)
    returns (r: int, libraryCode: int)
    requires output.Valid() && data.Valid() && data.inputSamples == data.inputBuf.Length
    modifies output, data
    ensures output.Valid() && data.Valid() && output.readPos == old(output.readPos)
    ensures data.mode == old(data.mode) && data.dtx == old(data.dtx)
    ensures match lib(data.mode, data.inputBuf[..])
      case Failed(code) =>
        r == ENCODE && libraryCode == code && output.Unread() == old(output.Unread()) &&
        data.inputSamples == old(data.inputSamples)
      case Coded(frame) =>
        r == OK && libraryCode == 0 && data.inputSamples == 0 &&
        output.Unread() == old(output.Unread()) + Frame.FrameBytes(frame, STREAM_AUDIO, numStreams)
  {
    match lib(data.mode, data.inputBuf[..]) {
      case Failed(code) =>
        return ENCODE, code;
      case Coded(frame) =>
        r := Frame.WriteFrame(output, frame, STREAM_AUDIO, numStreams);
        libraryCode := 0;
        data.inputSamples := 0;
    }
  }

  /** Emit on exactly one block: one library call. */
  lemma EmitBlock(lib: (int, seq<int16>) -> Encoded, mode: int, full: seq<int16>, numStreams: int)
    requires |full| > 0
    ensures lib(mode, full).Failed? ==>
      Emit(lib, mode, |full|, full, numStreams) == Emitted(ENCODE, [], full, lib(mode, full).code)
    ensures lib(mode, full).Coded? ==>
      Emit(lib, mode, |full|, full, numStreams)
      == Emitted(OK, Frame.FrameBytes(lib(mode, full).frame, STREAM_AUDIO, numStreams), [], 0)
  {
    assert full[..|full|] == full && full[|full|..] == [];
    if lib(mode, full).Coded? {
      AppendEmptyBytes(Frame.FrameBytes(lib(mode, full).frame, STREAM_AUDIO, numStreams));
    }
  }

  /**
   * Splitting the work at the end of a chunk that either fills the block
   * or takes the last of the samples: Emit on everything is Emit on the
   * gathered block first, then on whatever it leaves pending followed by
   * the remaining samples.
   */
  lemma EmitSplit(lib: (int, seq<int16>) -> Encoded, mode: int, block: nat, pending: seq<int16>, samples: seq<int16>,
                  i: nat, copy: nat, written: seq<byte>, numStreams: int)
    requires block > 0 && i + copy <= |samples| && |pending| + copy <= block
    requires |pending| + copy == block || i + copy == |samples|
    ensures var e := Emit(lib, mode, block, pending + samples[i..i + copy], numStreams);
      Prefixed(written, Emit(lib, mode, block, pending + samples[i..], numStreams))
      == if e.status == OK
         then Prefixed(written + e.bytes, Emit(lib, mode, block, e.pending + samples[i + copy..], numStreams))
         else Prefixed(written, e)
  {
    var p := pending + samples[i..i + copy];
    var rest := samples[i + copy..];
    assert pending + samples[i..] == p + rest;
    var e := Emit(lib, mode, block, p, numStreams);
    if |p| == block {
      var all := p + rest;
      assert all[..block] == p && all[block..] == rest;
      EmitBlock(lib, mode, p, numStreams);
      if e.status == OK {
        assert e.pending + rest == rest;
        PrefixedAssoc(written, e.bytes, Emit(lib, mode, block, rest, numStreams));
      }
    } else {
      assert rest == [];
      AppendEmptyPending(p);
      assert e == Emitted(OK, [], p, 0);
      AppendEmptyBytes(written);
    }
  }

  lemma AppendEmptyPending(a: seq<int16>)
    ensures a + [] == a
  {
  }

  lemma PrefixedEmpty(e: Emitted)
    ensures Prefixed([], e) == e
  {
    assert [] + e.bytes == e.bytes;
  }

  lemma PrefixedAssoc(a: seq<byte>, b: seq<byte>, e: Emitted)
    ensures Prefixed(a, Prefixed(b, e)) == Prefixed(a + b, e)
  {
    Demux.AppendAssoc(a, b, e.bytes);
  }

  function Prefixed(bytes: seq<byte>, e: Emitted): Emitted
  {
    e.(bytes := bytes + e.bytes)
  }

  /**
   * amr_encoder_init / amr_wb_encoder_init: only the variant's own sample
   * rate and mono are accepted, each refusal recorded in the encoder's
   * error slot; a library that fails to start gives INIT.  Otherwise the
   * private state starts with the default mode, DTX off and an empty
   * block.  `libraryStarts` is whether the library's init call succeeds.
   * Without the encoding library the call only records NOCODEC.
   */
  method EncoderInit(enc: Core.Encoder, v: Variant, sampleRate: int, numChannels: int, libraryStarts: bool)
    returns (r: int, data: EncoderData?)
    requires v.WellFormed()
    modifies enc
    ensures !v.encoderBuilt ==>
      r == NOCODEC && data == null &&
      Core.EncoderGetError(enc) == Some(Recorded(NOCODEC, Some(v.missingMessage), Some(v.encoderLibrary), 0, None))
    ensures v.encoderBuilt && sampleRate != v.sampleRate ==>
      r == INVAL && data == null &&
      Core.EncoderGetError(enc) == Some(Recorded(INVAL, Some(v.rateMessage), Some(v.encoderLibrary), 0, None))
    ensures v.encoderBuilt && sampleRate == v.sampleRate && numChannels != 1 ==>
      r == INVAL && data == null &&
      Core.EncoderGetError(enc) == Some(Recorded(INVAL, Some(v.monoMessage), Some(v.encoderLibrary), 0, None))
    ensures v.encoderBuilt && sampleRate == v.sampleRate && numChannels == 1 && !libraryStarts ==>
      r == INIT && data == null &&
      Core.EncoderGetError(enc) == Some(Recorded(INIT, Some(v.encoderInitMessage), Some(v.encoderLibrary), 0, None))
    ensures v.encoderBuilt && sampleRate == v.sampleRate && numChannels == 1 && libraryStarts ==>
      r == OK && data != null && fresh(data) && fresh(data.inputBuf) && enc.error == old(enc.error) &&
      data.Valid() && data.Pending() == [] && data.inputBuf.Length == v.blockSamples &&
      data.mode == v.defaultMode && !data.dtx
    ensures enc.numStreams == old(enc.numStreams)
  {
    if !v.encoderBuilt {
      Core.EncoderSetError(enc, NOCODEC, Some(v.missingMessage), Some(v.encoderLibrary), 0, None);
      return NOCODEC, null;
    }
    if sampleRate != v.sampleRate {
      Core.EncoderSetError(enc, INVAL, Some(v.rateMessage), Some(v.encoderLibrary), 0, None);
      return INVAL, null;
    }
    if numChannels != 1 {
      Core.EncoderSetError(enc, INVAL, Some(v.monoMessage), Some(v.encoderLibrary), 0, None);
      return INVAL, null;
    }
    if !libraryStarts {
      Core.EncoderSetError(enc, INIT, Some(v.encoderInitMessage), Some(v.encoderLibrary), 0, None);
      return INIT, null;
    }
    data := new EncoderData(v.blockSamples, v.defaultMode);
    r := OK;
  }

  /**
   * amr_encoder_encode / amr_wb_encoder_encode.  An empty input is a no-op;
   * side-channel data is framed unchanged; audio is read as 16-bit samples
   * (a trailing odd byte is ignored) and gathered into blocks as Emit
   * describes.  A library failure is recorded with the library's code and
   * returned as ENCODE; C leaves the consumed count unset then, here it
   * is 0.  Without the encoding library every call gives NOCODEC.
   */
  method EncoderEncode(enc: Core.Encoder, data: EncoderData?, v: Variant, input: seq<byte>, streamType: int,
                       lib: (int, seq<int16>) -> Encoded)
    returns (r: int, consumed: nat)
    requires enc.Valid() && (data != null ==> data.Valid())
    modifies enc, enc.output, if data == null then {} else {data, data.inputBuf}
    ensures enc.Valid() && enc.numStreams == old(enc.numStreams) && enc.output.readPos == old(enc.output.readPos)
    ensures data != null ==> data.Valid() && data.mode == old(data.mode)
    ensures !v.encoderBuilt ==>
      r == NOCODEC && consumed == 0 && enc.output.Unread() == old(enc.output.Unread()) && enc.error == old(enc.error)
    ensures v.encoderBuilt && (data == null || |input| == 0) ==>
      r == (if data == null then INVAL else OK) && consumed == 0 &&
      enc.output.Unread() == old(enc.output.Unread()) && enc.error == old(enc.error)
    ensures v.encoderBuilt && data != null && |input| > 0 && streamType != STREAM_AUDIO ==>
      r == OK && consumed == |input| && enc.error == old(enc.error) && data.Pending() == old(data.Pending()) &&
      enc.output.Unread() == old(enc.output.Unread()) + Frame.FrameBytes(input, streamType, enc.numStreams)
    ensures v.encoderBuilt && data != null && 0 < |input| < 2 && streamType == STREAM_AUDIO ==>
      r == OK && consumed == 0 && enc.error == old(enc.error) && data.Pending() == old(data.Pending()) &&
      enc.output.Unread() == old(enc.output.Unread())
    ensures v.encoderBuilt && data != null && |input| >= 2 && streamType == STREAM_AUDIO ==>
      var e := Emit(lib, data.mode, data.inputBuf.Length, old(data.Pending()) + Samples(input), enc.numStreams);
      r == e.status && data.Pending() == e.pending &&
      enc.output.Unread() == old(enc.output.Unread()) + e.bytes &&
      (r == OK ==> consumed == 2 * (|input| / 2) && enc.error == old(enc.error)) &&
      (r == ENCODE ==>
         consumed == 0 &&
         Core.EncoderGetError(enc)
         == Some(Recorded(ENCODE, Some(v.encodeMessage), Some(v.encoderLibrary), e.libraryCode, None)))
  {
    if !v.encoderBuilt {
      return NOCODEC, 0;
    }
    if data == null {
      return INVAL, 0;
    }
    if |input| == 0 {
      return OK, 0;
    }
    if streamType != STREAM_AUDIO {
      r := Frame.WriteFrame(enc.output, input, streamType, enc.numStreams);
      return OK, |input|;
    }
    var samples := Samples(input);
    if |samples| == 0 {
      return OK, 0;
    }
    var code;
    r, code := EncodeSamples(enc.output, data, samples, lib, enc.numStreams);
    if r != OK {
      Core.EncoderSetError(enc, ENCODE, Some(v.encodeMessage), Some(v.encoderLibrary), code, None);
      return r, 0;
    }
    consumed := 2 * |samples|;
  }

  /**
   * amr_encoder_finalize / amr_wb_encoder_finalize: samples left waiting
   * are completed with silence and encoded once more; a non-empty frame is
   * written, a failure or an empty frame is dropped without a report, and
   * the block restarts empty.  The result is OK whenever there is state,
   * and always in a build without the encoding library.
   */
  method EncoderFinalize(enc: Core.Encoder, data: EncoderData?, v: Variant, lib: (int, seq<int16>) -> Encoded)
    returns (r: int)
    requires enc.Valid() && (data != null ==> data.Valid())
    modifies enc.output, if data == null then {} else {data, data.inputBuf}
    ensures enc.Valid() && enc.output.readPos == old(enc.output.readPos)
    ensures !v.encoderBuilt ==> r == OK && enc.output.Unread() == old(enc.output.Unread())
    ensures v.encoderBuilt && data == null ==> r == INVAL && enc.output.Unread() == old(enc.output.Unread())
    ensures v.encoderBuilt && data != null ==>
      r == OK && data.Valid() && data.Pending() == [] && data.mode == old(data.mode) &&
      enc.output.Unread()
      == old(enc.output.Unread()) + Flush(lib, data.mode, data.inputBuf.Length, old(data.Pending()), enc.numStreams)
  {
    if !v.encoderBuilt {
      return OK;
    }
    if data == null {
      return INVAL;
    }
    if data.inputSamples > 0 {
      ghost var pending := data.Pending();
      data.PadWithSilence();
      var res := lib(data.mode, data.inputBuf[..]);
      if res.Coded? && |res.frame| > 0 {
        var _ := Frame.WriteFrame(enc.output, res.frame, STREAM_AUDIO, enc.numStreams);
      } else {
        AppendEmptyBytes(enc.output.Unread());
      }
      data.inputSamples := 0;
    } else {
      AppendEmptyBytes(enc.output.Unread());
    }
    r := OK;
  }

  // ---------------------------------------------------------------------
  // Decoder
  // ---------------------------------------------------------------------

  /** The private state of an AMR decoder (struct amr_decoder_data), minus the library handle. */
  class DecoderData {
    /** Encoded bytes waiting to be parsed. */
    const inputBuf: MuxBuffer

    constructor ()
      ensures inputBuf.Valid() && fresh(inputBuf)
    {
      inputBuf := new MuxBuffer();
    }
  }

  /**
   * amr_decoder_init / amr_wb_decoder_init: a 4096-byte input buffer; a
   * library that fails to start is recorded and returned as INIT.
   */
  method DecoderInit(dec: Core.Decoder, v: Variant, libraryStarts: bool) returns (r: int, data: DecoderData?)
    modifies dec
    ensures !libraryStarts ==>
      r == INIT && data == null &&
      Core.DecoderGetError(dec) == Some(Recorded(INIT, Some(v.decoderInitMessage), Some(v.decoderLibrary), 0, None))
    ensures libraryStarts ==>
      r == OK && data != null && fresh(data) && fresh(data.inputBuf) && dec.error == old(dec.error) &&
      data.inputBuf.Valid() && data.inputBuf.Unread() == [] && data.inputBuf.capacity == 4096
    ensures dec.numStreams == old(dec.numStreams) && dec.inputBuf == old(dec.inputBuf)
  {
    var d := new DecoderData();
    var _ := d.inputBuf.Init(4096);
    if !libraryStarts {
      Core.DecoderSetError(dec, INIT, Some(v.decoderInitMessage), Some(v.decoderLibrary), 0, None);
      return INIT, null;
    }
    return OK, d;
  }

  /**
   * What the decoder writes for one frame: the whole pcm_out block, as
   * little-endian bytes.  `lib(frame, i)` is sample i of what the library
   * leaves in that block for `frame`.
   */
  function DecodedBlock(v: Variant, lib: (seq<byte>, int) -> int16, frame: seq<byte>): (r: seq<byte>)
    ensures |r| == 2 * v.blockSamples
  {
    PcmBytes(seq(v.blockSamples, i => lib(frame, i)))
  }

  /** The multi-stream decoder's conversion of an audio payload. */
  function PcmOf(v: Variant, lib: (seq<byte>, int) -> int16): seq<byte> -> seq<byte>
  {
    (frame: seq<byte>) => DecodedBlock(v, lib, frame)
  }

  /** The outcome of the single-stream frame walk. */
  datatype Walked = Walked(status: int, audio: seq<byte>, used: nat)

  /**
   * The single-stream (raw storage format) parse: frame after frame, its
   * size read from the first byte's frame type; a frame type with no size
   * is a decoding error, an incomplete frame waits for more input.
   */
  function Walk(v: Variant, s: seq<byte>, lib: (seq<byte>, int) -> int16): (w: Walked)
    requires v.WellFormed()
    ensures w.status == OK || w.status == DECODE
    ensures w.used <= |s|
    decreases |s|
  {
    if s == [] then Walked(OK, [], 0)
    else
      var n := FrameSize(v, s[0]);
      if n <= 0 then Walked(DECODE, [], 0)
      else if |s| < n then Walked(OK, [], 0)
      else
        var rest := Walk(v, s[n..], lib);
        Walked(rest.status, DecodedBlock(v, lib, s[..n]) + rest.audio, n + rest.used)
  }

  /** A storage frame: its first byte's frame type announces exactly its length. */
  predicate WholeFrame(v: Variant, f: seq<byte>)
    requires v.WellFormed()
  {
    f != [] && FrameSize(v, f[0]) == |f|
  }

  function Joined(frames: seq<seq<byte>>): seq<byte>
  {
    if frames == [] then [] else frames[0] + Joined(frames[1..])
  }

  function DecodedAll(v: Variant, lib: (seq<byte>, int) -> int16, frames: seq<seq<byte>>): seq<byte>
  {
    if frames == [] then [] else DecodedBlock(v, lib, frames[0]) + DecodedAll(v, lib, frames[1..])
  }

  /**
   * The walk recovers whole frames written back to back: each is decoded,
   * in order, and the walk goes on with whatever follows them.  Bytes
   * after them that start an unfinished frame wait; a first byte whose
   * frame type has no size fails with DECODE, after the frames before it
   * have been decoded.
   */
  lemma {:induction false} WalkFrames(v: Variant, frames: seq<seq<byte>>, tail: seq<byte>, lib: (seq<byte>, int) -> int16)
    requires v.WellFormed()
    requires forall k | 0 <= k < |frames| :: WholeFrame(v, frames[k])
    ensures var w := Walk(v, tail, lib);
      Walk(v, Joined(frames) + tail, lib) == Walked(w.status, DecodedAll(v, lib, frames) + w.audio, |Joined(frames)| + w.used)
    ensures tail == [] || (FrameSize(v, tail[0]) > 0 && |tail| < FrameSize(v, tail[0])) ==>
      Walk(v, tail, lib) == Walked(OK, [], 0)
    ensures tail != [] && FrameSize(v, tail[0]) <= 0 ==> Walk(v, tail, lib) == Walked(DECODE, [], 0)
    decreases |frames|
  {
    if frames != [] {
      var f := frames[0];
      assert WholeFrame(v, f);
      var s := Joined(frames) + tail;
      assert s == f + (Joined(frames[1..]) + tail);
      assert s[0] == f[0] && s[..|f|] == f && s[|f|..] == Joined(frames[1..]) + tail;
      WalkFrames(v, frames[1..], tail, lib);
      var w := Walk(v, tail, lib);
      Demux.AppendAssoc(DecodedBlock(v, lib, f), DecodedAll(v, lib, frames[1..]), w.audio);
    } else {
      assert Joined(frames) + tail == tail;
      assert DecodedAll(v, lib, frames) + Walk(v, tail, lib).audio == Walk(v, tail, lib).audio;
    }
  }

  function WalkedAfter(audio: seq<byte>, used: nat, w: Walked): Walked
  {
    Walked(w.status, audio + w.audio, used + w.used)
  }

  /**
   * The single-stream loop of amr_decoder_decode: frames are decoded
   * straight out of the input buffer by moving its read position; the
   * buffer rewinds once everything in it is used.  A bad frame type stops
   * with DECODE and no rewind.
   */
  method DecodeStorageFrames(inputBuf: MuxBuffer, audio: MuxBuffer, v: Variant, lib: (seq<byte>, int) -> int16)
    returns (r: int)
    requires inputBuf.Valid() && audio.Valid() && inputBuf != audio && v.WellFormed()
    modifies inputBuf, audio
    ensures inputBuf.Valid() && audio.Valid()
    ensures var w := Walk(v, old(inputBuf.Unread()), lib);
      r == w.status && audio.Unread() == old(audio.Unread()) + w.audio &&
      inputBuf.Unread() == old(inputBuf.Unread())[w.used..]
    ensures r == OK && inputBuf.Unread() == [] ==> inputBuf.size == 0 && inputBuf.readPos == 0
  {
    ghost var s := inputBuf.Unread();
    ghost var before := audio.Unread();
    ghost var target := Walk(v, s, lib);
    ghost var decoded: seq<byte> := [];
    ghost var used: nat := 0;
    AppendEmptyBytes(before);
    assert target == WalkedAfter([], 0, target) by {
      assert [] + target.audio == target.audio;
    }
    while inputBuf.size - inputBuf.readPos > 0
      invariant inputBuf.Valid() && audio.Valid()
      invariant used <= |s| && inputBuf.Unread() == s[used..]
      invariant audio.Unread() == before + decoded
      invariant target == WalkedAfter(decoded, used, Walk(v, inputBuf.Unread(), lib))
      decreases inputBuf.size - inputBuf.readPos
    {
      assert inputBuf.Unread()[0] == inputBuf.data[inputBuf.readPos];
      var n := FrameSize(v, inputBuf.data[inputBuf.readPos]);
      if n <= 0 {
        WalkBadType(v, inputBuf.Unread(), lib, decoded, used);
        return DECODE;
      }
      if inputBuf.size - inputBuf.readPos < n {
        break;
      }
      ghost var rest := inputBuf.Unread();
      WalkStep(v, rest, lib, decoded, used, n);
      DecodeOne(inputBuf, audio, n, v, lib);
      Demux.AppendAssoc(before, decoded, DecodedBlock(v, lib, rest[..n]));
      decoded := decoded + DecodedBlock(v, lib, rest[..n]);
      used := used + n;
    }
    WalkStop(v, inputBuf.Unread(), lib, decoded, used);
    Rewind(inputBuf);
    r := OK;
  }

  /** One frame of the walk: decoded into the audio output, then skipped by moving the read position. */
  method DecodeOne(inputBuf: MuxBuffer, audio: MuxBuffer, n: nat, v: Variant, lib: (seq<byte>, int) -> int16)
    requires inputBuf.Valid() && audio.Valid() && inputBuf != audio && n <= inputBuf.size - inputBuf.readPos
    modifies inputBuf, audio
    ensures inputBuf.Valid() && audio.Valid() && inputBuf.size == old(inputBuf.size)
    ensures audio.Unread() == old(audio.Unread()) + DecodedBlock(v, lib, old(inputBuf.Unread())[..n])
    ensures inputBuf.Unread() == old(inputBuf.Unread())[n..]
  {
    var frame := inputBuf.data[inputBuf.readPos..inputBuf.readPos + n];
    assert frame == inputBuf.Unread()[..n];
    var _ := audio.Write(DecodedBlock(v, lib, frame));
    inputBuf.readPos := inputBuf.readPos + n;
  }

  /** "Reset buffer if fully read": an emptied buffer goes back to the start of its storage. */
  method Rewind(buf: MuxBuffer)
    requires buf.Valid()
    modifies buf
    ensures buf.Valid() && buf.Unread() == old(buf.Unread())
    ensures buf.Unread() == [] ==> buf.size == 0 && buf.readPos == 0
  {
    if buf.readPos == buf.size {
      buf.readPos := 0;
      buf.size := 0;
    }
  }

  lemma WalkBadType(v: Variant, rest: seq<byte>, lib: (seq<byte>, int) -> int16, decoded: seq<byte>, used: nat)
    requires v.WellFormed() && rest != [] && FrameSize(v, rest[0]) <= 0
    ensures WalkedAfter(decoded, used, Walk(v, rest, lib)) == Walked(DECODE, decoded, used)
  {
    AppendEmptyBytes(decoded);
  }

  lemma WalkStep(v: Variant, rest: seq<byte>, lib: (seq<byte>, int) -> int16, decoded: seq<byte>, used: nat, n: nat)
    requires v.WellFormed() && rest != [] && FrameSize(v, rest[0]) == n && 0 < n <= |rest|
    ensures WalkedAfter(decoded, used, Walk(v, rest, lib))
         == WalkedAfter(decoded + DecodedBlock(v, lib, rest[..n]), used + n, Walk(v, rest[n..], lib))
  {
    Demux.AppendAssoc(decoded, DecodedBlock(v, lib, rest[..n]), Walk(v, rest[n..], lib).audio);
  }

  lemma WalkStop(v: Variant, rest: seq<byte>, lib: (seq<byte>, int) -> int16, decoded: seq<byte>, used: nat)
    requires v.WellFormed()
    requires rest == [] || (FrameSize(v, rest[0]) > 0 && |rest| < FrameSize(v, rest[0]))
    ensures WalkedAfter(decoded, used, Walk(v, rest, lib)) == Walked(OK, decoded, used)
  {
    AppendEmptyBytes(decoded);
  }

  /** The multi-stream decode reads packets through a scratch area that starts at 1024 bytes. */
  const FRAME_BUF_CAPACITY: nat := 1024

  /**
   * amr_decoder_decode / amr_wb_decoder_decode: the input is appended to
   * the private buffer and counted as consumed in full before any parsing,
   * so the count stands even when the call fails.  One stream: raw storage
   * frames, as Walk describes.  Several streams: packets, as Demux
   * describes, each audio payload replaced by the library's samples.
   */
  method DecoderDecode(dec: Core.Decoder, data: DecoderData?, v: Variant, input: seq<byte>,
                       lib: (seq<byte>, int) -> int16)
    returns (r: int, consumed: nat)
    requires dec.Valid() && v.WellFormed()
    requires data != null ==> data.inputBuf.Valid() && data.inputBuf != dec.audio && data.inputBuf != dec.side
    modifies dec.audio, dec.side, if data == null then {} else {data.inputBuf}
    ensures dec.Valid()
    ensures data == null ==>
      r == INVAL && consumed == 0 && dec.audio.Unread() == old(dec.audio.Unread()) &&
      dec.side.Unread() == old(dec.side.Unread())
    ensures data != null ==> data.inputBuf.Valid() && consumed == |input|
    ensures data != null && dec.numStreams == 1 ==>
      var s := old(data.inputBuf.Unread()) + input;
      var w := Walk(v, s, lib);
      r == w.status && dec.audio.Unread() == old(dec.audio.Unread()) + w.audio &&
      dec.side.Unread() == old(dec.side.Unread()) && data.inputBuf.Unread() == s[w.used..]
    ensures data != null && dec.numStreams != 1 ==>
      var d := Demux.Demux(old(data.inputBuf.Unread()) + input, FRAME_BUF_CAPACITY, dec.numStreams, PcmOf(v, lib));
      r == d.status && data.inputBuf.Unread() == d.rest &&
      dec.audio.Unread() == old(dec.audio.Unread()) + d.audio && dec.side.Unread() == old(dec.side.Unread()) + d.side
  {
    if data == null {
      return INVAL, 0;
    }
    if dec.numStreams == 1 {
      var _ := data.inputBuf.Write(input);
      consumed := |input|;
      r := DecodeStorageFrames(data.inputBuf, dec.audio, v, lib);
      return;
    }
    r := Demux.Run(data.inputBuf, dec.audio, dec.side, input, FRAME_BUF_CAPACITY, dec.numStreams, PcmOf(v, lib));
    consumed := |input|;
  }
}
