/**
 * The container framing of src/mux_leb128.c.  With two streams every packet
 * is written as [LEB128(size << 1 | stream)][payload]; with one stream the
 * payload bytes are written raw and the reader hands back whatever is
 * buffered as audio.
 */
module Frame {
  import opened Types
  import opened Leb128
  import opened Buffer

  /** Size of the on-stack header scratch area (leb128_buf). */
  const HEADER_CAPACITY: nat := 10

  /**
   * The header word: the payload size shifted left by one in 64-bit
   * arithmetic, which drops its top bit, with the low bit of the stream type
   * below it.
   */
  function HeaderWord(payloadSize: nat, streamType: int): (w: nat)
    ensures w < TWO_POW_64 && w % 2 == streamType % 2
    ensures payloadSize < TWO_POW_63 ==> w / 2 == payloadSize
  {
    2 * (payloadSize % TWO_POW_63) + streamType % 2
  }

  /** The bytes mux_leb128_write_frame appends for one packet. */
  function FrameBytes(payload: seq<byte>, streamType: int, numStreams: int): seq<byte>
  {
    if numStreams == 1 then payload
    else Encoding(HeaderWord(|payload|, streamType)) + payload
  }

  /** What mux_leb128_read_frame finds at the front of the unread bytes. */
  datatype FrameRead =
    | Frame(payload: seq<byte>, streamType: int)
      /** The input ends before the frame does (AGAIN). */
    | Again
      /** A whole frame is buffered but the caller's area is smaller (INVAL, size reported). */
    | TooSmall(size: nat, streamType: int)
      /** The header runs past nine bytes (INVAL, nothing reported). */
    | Malformed

  datatype Parsed = Parsed(result: FrameRead, consumed: nat)

  /**
   * The unread bytes `s` do not yet hold a whole packet: nothing at all
   * with one stream; a header cut short, or a payload not fully arrived,
   * with two.
   */
  predicate Incomplete(s: seq<byte>, numStreams: int)
  {
    if numStreams == 1 then s == []
    else match Decoding(s)
      case NeedMore => true
      case Overflow => false
      case Decoded(word, headerLen) => |s| < headerLen + word / 2
  }

  /**
   * mux_leb128_read_frame on the unread bytes `s` with a payload area of
   * `capacity` bytes: what it reports and how many bytes it consumes.
   */
  function ParseFrame(s: seq<byte>, capacity: nat, numStreams: int): (p: Parsed)
    ensures p.consumed <= |s|
    ensures !p.result.Frame? ==> p.consumed == 0
    ensures p.result.Frame? ==>
      |p.result.payload| <= capacity && |p.result.payload| <= p.consumed &&
      p.result.payload == s[p.consumed - |p.result.payload|..p.consumed] &&
      (p.result.streamType == STREAM_AUDIO || p.result.streamType == STREAM_SIDE_CHANNEL)
    ensures p.result.TooSmall? ==> numStreams != 1 && capacity < p.result.size
    ensures p.result.Again? <==> Incomplete(s, numStreams)
    ensures p.result.Malformed? <==> numStreams != 1 && Decoding(s).Overflow?
    ensures p.result.Frame? && (numStreams != 1 || capacity > 0) ==> p.consumed > 0
  {
    if numStreams == 1 then
      if |s| == 0 then Parsed(Again, 0)
      else
        var n := Min(|s|, capacity);
        Parsed(Frame(s[..n], STREAM_AUDIO), n)
    else
      DecodedBound(s);
      match Decoding(s)
      case NeedMore => Parsed(Again, 0)
      case Overflow => Parsed(Malformed, 0)
      case Decoded(word, headerLen) =>
        var size := word / 2;
        var stream := word % 2;
        if |s| < headerLen + size then Parsed(Again, 0)
        else if capacity < size then Parsed(TooSmall(size, stream), 0)
        else Parsed(Frame(s[headerLen..headerLen + size], stream), headerLen + size)
  }

  /** A header word always fits the ten-byte scratch area, so encoding it cannot fail. */
  lemma HeaderFits(word: nat)
    requires word < TWO_POW_64
    ensures |Encoding(word)| <= HEADER_CAPACITY
  {
    EncodingLength(word, 10);
    Pow128Values();
  }

  /**
   * A written frame reads back as the same payload on the same stream and
   * consumes exactly its own bytes, whatever follows it.
   */
  lemma RoundTrip(payload: seq<byte>, streamType: int, numStreams: int, rest: seq<byte>, capacity: nat)
    requires numStreams != 1 && |payload| < TWO_POW_62 && |payload| <= capacity
    ensures ParseFrame(FrameBytes(payload, streamType, numStreams) + rest, capacity, numStreams)
         == Parsed(Frame(payload, streamType % 2), |FrameBytes(payload, streamType, numStreams)|)
  {
    var w := HeaderWord(|payload|, streamType);
    var h := Encoding(w);
    Leb128.RoundTrip(w, payload + rest);
    var s := FrameBytes(payload, streamType, numStreams) + rest;
    assert s == h + (payload + rest);
    assert s[|h|..|h| + |payload|] == payload;
  }

  /**
   * A written frame whose payload exceeds the reader's area is reported as
   * too small, with its true size and stream, and nothing is consumed: the
   * caller can grow its area and read it again.
   */
  lemma ProbeTooSmall(payload: seq<byte>, streamType: int, numStreams: int, rest: seq<byte>, capacity: nat)
    requires numStreams != 1 && |payload| < TWO_POW_62 && capacity < |payload|
    ensures ParseFrame(FrameBytes(payload, streamType, numStreams) + rest, capacity, numStreams)
         == Parsed(TooSmall(|payload|, streamType % 2), 0)
  {
    var w := HeaderWord(|payload|, streamType);
    Leb128.RoundTrip(w, payload + rest);
    assert FrameBytes(payload, streamType, numStreams) + rest == Encoding(w) + (payload + rest);
  }

  /** Any proper prefix of a frame is waited on: AGAIN, nothing consumed. */
  lemma PartialFrameWaits(payload: seq<byte>, streamType: int, numStreams: int, n: nat, capacity: nat)
    requires numStreams != 1 && |payload| < TWO_POW_62
    requires n < |FrameBytes(payload, streamType, numStreams)|
    ensures ParseFrame(FrameBytes(payload, streamType, numStreams)[..n], capacity, numStreams) == Parsed(Again, 0)
  {
    var w := HeaderWord(|payload|, streamType);
    var h := Encoding(w);
    var s := FrameBytes(payload, streamType, numStreams)[..n];
    if n < |h| {
      assert s == h[..n];
      TruncatedNeedsMore(w, n);
    } else {
      Leb128.RoundTrip(w, payload[..n - |h|]);
      assert s == h + payload[..n - |h|];
    }
  }

  /**
   * Reading again with an area of exactly the reported size, before
   * anything else touches the input, yields the frame.
   */
  lemma RetryFits(s: seq<byte>, capacity: nat, numStreams: int)
    requires ParseFrame(s, capacity, numStreams).result.TooSmall?
    ensures var probe := ParseFrame(s, capacity, numStreams).result;
      var p := ParseFrame(s, probe.size, numStreams);
      p.result.Frame? && |p.result.payload| == probe.size && p.result.streamType == probe.streamType &&
      p.consumed > 0
  {
  }

  /**
   * With one stream there is no framing: whatever is buffered comes back as
   * audio, up to the caller's area.
   */
  lemma PassthroughTakesAll(s: seq<byte>, capacity: nat)
    requires |s| > 0 && capacity > 0
    ensures ParseFrame(s, capacity, 1).result.Frame?
    ensures ParseFrame(s, capacity, 1).result.streamType == STREAM_AUDIO
    ensures ParseFrame(s, capacity, 1).consumed == Min(|s|, capacity) > 0
    ensures |s| <= capacity ==> ParseFrame(s, capacity, 1).result.payload == s
  {
  }

  /**
   * mux_leb128_write_frame: appends one packet to `output`, framed when
   * there are two streams, raw when there is one.  The buffer grows as
   * Buffer.Write grows it: never shrinking, and not at all when the packet
   * fits in the room it has.
   */
  method WriteFrame(output: MuxBuffer, payload: seq<byte>, streamType: int, numStreams: int) returns (r: int)
    requires output.Valid()
    modifies output
    ensures output.Valid() && r == OK
    ensures output.Unread() == old(output.Unread()) + FrameBytes(payload, streamType, numStreams)
    ensures output.readPos == old(output.readPos)
    ensures output.size == old(output.size) + |FrameBytes(payload, streamType, numStreams)|
    ensures output.capacity >= old(output.capacity)
    ensures old(output.size) + |FrameBytes(payload, streamType, numStreams)| <= old(output.capacity) ==>
      output.capacity == old(output.capacity)
  {
    if numStreams == 1 {
      if |payload| > 0 {
        r := output.Write(payload);
      }
      return OK;
    }
    var word := HeaderWord(|payload|, streamType);
    // A 64-bit word needs at most ten bytes, so the encoder's INVAL return cannot occur here.
    HeaderFits(word);
    var headerLen, header := Leb128.Encode(word, HEADER_CAPACITY);
    ghost var before := output.Unread();
    r := output.Write(header);
    if |payload| > 0 {
      r := output.Write(payload);
    }
    assert before + header + payload == before + (header + payload);
    r := OK;
  }

  /**
   * What mux_leb128_read_frame promises about `input` and its out-values,
   * given the unread bytes `s` it started from.
   */
  ghost predicate ReadOutcome(s: seq<byte>, capacity: nat, numStreams: int, input: MuxBuffer,
                              r: int, payload: seq<byte>, payloadSize: nat, streamType: int)
    reads input
  {
    var p := ParseFrame(s, capacity, numStreams);
    && input.Valid()
    && input.Unread() == s[p.consumed..]
    && (p.result.Frame? ==> r == OK && payload == p.result.payload && payloadSize == |payload|
                            && streamType == p.result.streamType)
    && (p.result.Again? ==> r == AGAIN)
    && (p.result.TooSmall? ==> r == INVAL && payloadSize == p.result.size && streamType == p.result.streamType)
    && (p.result.Malformed? ==> r == INVAL && payloadSize == 0)
  }

  /**
   * mux_leb128_read_frame: takes the next packet from `input` into a payload
   * area of `capacity` bytes.  OK consumes the frame; AGAIN and INVAL leave
   * the input as it was.  When the area is too small the true size and
   * stream are still reported, so that the caller can grow the area and try
   * again.  A read that drains the input rewinds it.  Out-values the source
   * leaves unset are 0 here.
   */
  method ReadFrame(input: MuxBuffer, capacity: nat, numStreams: int)
    returns (r: int, payload: seq<byte>, payloadSize: nat, streamType: int)
    requires input.Valid()
    modifies input
    ensures ReadOutcome(old(input.Unread()), capacity, numStreams, input, r, payload, payloadSize, streamType)
    ensures input.data == old(input.data) && input.capacity == old(input.capacity)
    ensures r != OK ==> input.size == old(input.size) && input.readPos == old(input.readPos)
    ensures r == OK && input.Unread() == [] ==> input.size == 0 && input.readPos == 0
  {
    if numStreams == 1 {
      r, payload, payloadSize, streamType := ReadRaw(input, capacity);
    } else {
      r, payload, payloadSize, streamType := ReadFramed(input, capacity, numStreams);
    }
  }

  /** With one stream the parse takes what is buffered, up to the capacity. */
  lemma ParseRaw(s: seq<byte>, capacity: nat)
    ensures ParseFrame(s, capacity, 1)
         == if s == [] then Parsed(Again, 0) else Parsed(Frame(s[..Min(|s|, capacity)], STREAM_AUDIO), Min(|s|, capacity))
  {
  }

  /** The one-stream branch of mux_leb128_read_frame: everything buffered, as audio. */
  method ReadRaw(input: MuxBuffer, capacity: nat)
    returns (r: int, payload: seq<byte>, payloadSize: nat, streamType: int)
    requires input.Valid()
    modifies input
    ensures ReadOutcome(old(input.Unread()), capacity, 1, input, r, payload, payloadSize, streamType)
    ensures input.data == old(input.data) && input.capacity == old(input.capacity)
    ensures r != OK ==> input.size == old(input.size) && input.readPos == old(input.readPos)
    ensures r == OK && input.Unread() == [] ==> input.size == 0 && input.readPos == 0
  {
    ghost var s := input.Unread();
    ParseRaw(s, capacity);
    var available := input.size - input.readPos;
    if available == 0 {
      assert s == [] && s[0..] == s;
      return AGAIN, [], 0, 0;
    }
    var n := if available < capacity then available else capacity;
    payload := input.data[input.readPos..input.readPos + n];
    assert payload == s[..n];
    input.readPos := input.readPos + n;
    payloadSize, streamType := n, STREAM_AUDIO;
    if input.readPos == input.size {
      input.readPos, input.size := 0, 0;
      assert s[n..] == [];
    }
    assert input.Unread() == s[n..];
    r := OK;
  }

  /** The two-stream branch of mux_leb128_read_frame: one LEB128-framed packet. */
  method ReadFramed(input: MuxBuffer, capacity: nat, numStreams: int)
    returns (r: int, payload: seq<byte>, payloadSize: nat, streamType: int)
    requires input.Valid() && numStreams != 1
    modifies input
    ensures ReadOutcome(old(input.Unread()), capacity, numStreams, input, r, payload, payloadSize, streamType)
    ensures input.data == old(input.data) && input.capacity == old(input.capacity)
    ensures r != OK ==> input.size == old(input.size) && input.readPos == old(input.readPos)
    ensures r == OK && input.Unread() == [] ==> input.size == 0 && input.readPos == 0
  {
    ghost var s := input.Unread();
    var status, word, headerLen := Leb128.Decode(input.data[input.readPos..input.size]);
    ghost var d := Decoding(s);
    if status != OK {
      assert ParseFrame(s, capacity, numStreams).result == if d.NeedMore? then Again else Malformed;
      return status, [], 0, 0;
    }
    assert d == Decoded(word, headerLen);
    DecodedBound(s);
    var stream := word % 2;
    var size := word / 2;
    if input.size - input.readPos < headerLen + size {
      assert ParseFrame(s, capacity, numStreams) == Parsed(Again, 0);
      return AGAIN, [], 0, 0;
    }
    payloadSize, streamType := size, stream;
    if capacity < size {
      assert ParseFrame(s, capacity, numStreams) == Parsed(TooSmall(size, stream), 0);
      return INVAL, [], payloadSize, streamType;
    }
    ghost var start := input.readPos;
    input.readPos := input.readPos + headerLen;
    payload := input.data[input.readPos..input.readPos + size];
    input.readPos := input.readPos + size;
    assert payload == s[headerLen..headerLen + size] by {
      assert s == input.data[start..input.size];
      forall i | 0 <= i < size
        ensures payload[i] == s[headerLen + i]
      {
      }
    }
    assert ParseFrame(s, capacity, numStreams) == Parsed(Frame(payload, stream), headerLen + size);
    if input.readPos == input.size {
      input.readPos, input.size := 0, 0;
    }
    r := OK;
  }
}
