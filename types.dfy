/**
 * Shared vocabulary of the muxaudio core: byte and sample types, the status
 * codes every operation returns, the two stream identifiers, and a few
 * arithmetic helpers for the byte layouts.
 */
module Types {

  /** An unsigned 8-bit value (uint8_t). */
  type byte = x: int | 0 <= x < 256

  /** A signed 16-bit PCM sample (int16_t). */
  type int16 = x: int | -32768 <= x < 32768

  datatype Option<T> = None | Some(value: T)

  // Status codes (include/mux.h, enum mux_error).
  const OK: int := 0
  const ERROR: int := -1
  const NOMEM: int := -2
  const INVAL: int := -3
  const AGAIN: int := -4
  const NOCODEC: int := -5
  const EOF: int := -6
  const ENCODE: int := -7
  const DECODE: int := -8
  const FORMAT: int := -9
  const INIT: int := -10

  // Stream identifiers carried in the low bit of a frame header.
  const STREAM_AUDIO: int := 0
  const STREAM_SIDE_CHANNEL: int := 1

  const TWO_POW_62: nat := 0x4000_0000_0000_0000
  const TWO_POW_63: nat := 0x8000_0000_0000_0000
  const TWO_POW_64: nat := 0x1_0000_0000_0000_0000

  function Min(a: int, b: int): int { if a <= b then a else b }

  function Max(a: int, b: int): int { if a >= b then a else b }

  /** `n` zero bytes: what a freshly grown allocation is modelled as. */
  function Zeros(n: nat): (r: seq<byte>)
    ensures |r| == n
  {
    seq(n, _ => 0)
  }

  /** The two's-complement value of a 16-bit pattern, as a C cast to int16_t gives it. */
  function Wrap16(x: int): int16
  {
    var u := x % 65536;
    if u >= 32768 then u - 65536 else u
  }

  /** The two little-endian bytes of a sample, as an int16_t array is laid out in memory. */
  function SampleBytes(s: int16): seq<byte>
  {
    var u := s % 65536;
    [u % 256, u / 256]
  }

  /** Samples laid out as native little-endian 16-bit words. */
  function PcmBytes(samples: seq<int16>): (r: seq<byte>)
    ensures |r| == 2 * |samples|
  {
    if samples == [] then [] else SampleBytes(samples[0]) + PcmBytes(samples[1..])
  }

  /** The sample stored at bytes 2i and 2i+1 of a little-endian buffer. */
  function SampleAt(bytes: seq<byte>, i: nat): int16
    requires 2 * i + 1 < |bytes|
  {
    Wrap16(bytes[2 * i] as int + 256 * (bytes[2 * i + 1] as int))
  }

  /** Reading a buffer of bytes as int16_t samples: one sample per whole byte pair. */
  function Samples(bytes: seq<byte>): (r: seq<int16>)
    ensures |r| == |bytes| / 2
  {
    seq(|bytes| / 2, i requires 0 <= i < |bytes| / 2 => SampleAt(bytes, i))
  }

  lemma {:induction false} PcmBytesAppend(a: seq<int16>, b: seq<int16>)
    ensures PcmBytes(a + b) == PcmBytes(a) + PcmBytes(b)
  {
    if a == [] {
      assert a + b == b;
    } else {
      assert (a + b)[1..] == a[1..] + b;
      PcmBytesAppend(a[1..], b);
    }
  }

  /** Reading back what PcmBytes lays out gives the samples unchanged. */
  lemma {:induction false} SamplesOfPcmBytes(s: seq<int16>)
    ensures Samples(PcmBytes(s)) == s
  {
    var b := PcmBytes(s);
    forall i | 0 <= i < |s|
      ensures SampleAt(b, i) == s[i]
    {
      PcmBytesAt(s, i);
    }
  }

  /** The two bytes of a sample read back as that sample. */
  lemma SampleBytesRead(x: int16)
    ensures Wrap16(SampleBytes(x)[0] as int + 256 * (SampleBytes(x)[1] as int)) == x
  {
    var u := x % 65536;
    assert u % 256 + 256 * (u / 256) == u;
  }

  /** Sample i of a run is laid out at bytes 2i and 2i+1. */
  lemma {:induction false} PcmBytesSlice(s: seq<int16>, i: nat)
    requires i < |s|
    ensures PcmBytes(s)[2 * i .. 2 * i + 2] == SampleBytes(s[i])
  {
    if i > 0 {
      PcmBytesSlice(s[1..], i - 1);
      assert PcmBytes(s) == SampleBytes(s[0]) + PcmBytes(s[1..]);
      assert PcmBytes(s)[2 * i .. 2 * i + 2] == PcmBytes(s[1..])[2 * (i - 1) .. 2 * (i - 1) + 2];
    }
  }

  lemma PcmBytesAt(s: seq<int16>, i: nat)
    requires i < |s|
    ensures PcmBytes(s)[2 * i .. 2 * i + 2] == SampleBytes(s[i])
    ensures SampleAt(PcmBytes(s), i) == s[i]
  {
    PcmBytesSlice(s, i);
    SampleAtOfBytes(PcmBytes(s), i, s[i]);
  }

  /** Bytes 2i and 2i+1 holding the bytes of `x` make `x` the sample at i. */
  lemma SampleAtOfBytes(b: seq<byte>, i: nat, x: int16)
    requires 2 * i + 1 < |b| && b[2 * i .. 2 * i + 2] == SampleBytes(x)
    ensures SampleAt(b, i) == x
  {
    SampleBytesRead(x);
    assert b[2 * i] == SampleBytes(x)[0] && b[2 * i + 1] == SampleBytes(x)[1];
  }
}
