/**
 * Unsigned LEB128 varints (src/mux_leb128.c): seven value bits per byte,
 * least significant group first, the high bit of every byte but the last
 * set.  The decoder accepts at most nine bytes, so it yields values below
 * 2^63; a tenth byte is reported as an overflow.
 */
module Leb128 {
  import opened Types

  /** 128^k, the weight of the k-th seven-bit group (a shift by 7k bits). */
  function Pow128(k: nat): (r: nat)
    ensures r >= 1
  {
    if k == 0 then 1 else 128 * Pow128(k - 1)
  }

  /** The canonical (shortest) encoding of `v`, as mux_leb128_encode produces it. */
  function Encoding(v: nat): (r: seq<byte>)
    ensures 1 <= |r| && r[|r| - 1] < 128
  {
    if v < 128 then [v]
    else
      var t := Encoding(v / 128);
      assert ([v % 128 + 128] + t)[|t|] == t[|t| - 1];
      [v % 128 + 128] + t
  }

  datatype Decoded = Decoded(value: nat, length: nat) | NeedMore | Overflow

  /**
   * mux_leb128_decode's loop from its `count`-th byte on: `value` is the
   * number held by the groups from that byte to the terminating one, and
   * `length` the position just past it.  The input ending first asks for
   * more data; reaching a tenth byte (a shift of 70) is an overflow.
   */
  function DecodeFrom(s: seq<byte>, count: nat): Decoded
    decreases |s| - count
  {
    if count >= |s| then NeedMore
    else if count >= 9 then Overflow
    else if s[count] < 128 then Decoded(s[count], count + 1)
    else match DecodeFrom(s, count + 1)
      case Decoded(v, n) => Decoded(s[count] - 128 + 128 * v, n)
      case other => other
  }

  /** mux_leb128_decode on the bytes `s`. */
  function Decoding(s: seq<byte>): Decoded
  {
    DecodeFrom(s, 0)
  }

  lemma {:induction false} Pow128Monotone(a: nat, b: nat)
    requires a <= b
    ensures Pow128(a) <= Pow128(b)
  {
    if a < b {
      Pow128Monotone(a, b - 1);
    }
  }

  lemma Pow128Values()
    ensures Pow128(1) == 128
    ensures Pow128(9) == TWO_POW_63
    ensures Pow128(10) == 128 * TWO_POW_63
  {
  }

  lemma EncodingUnfold(v: nat)
    ensures v / 128 != 0 ==> Encoding(v) == [v % 128 + 128] + Encoding(v / 128)
    ensures v / 128 == 0 ==> Encoding(v) == [v % 128]
  {
  }

  /** Every byte of an encoding but the last carries the continuation bit. */
  lemma {:induction false} EncodingContinues(v: nat, i: nat)
    requires i < |Encoding(v)| - 1
    ensures Encoding(v)[i] >= 128
  {
    if i > 0 {
      EncodingContinues(v / 128, i - 1);
    }
  }

  /** The encoding has k bytes or fewer exactly when the value fits in 7k bits. */
  lemma {:induction false} EncodingLength(v: nat, k: nat)
    requires k >= 1
    ensures |Encoding(v)| <= k <==> v < Pow128(k)
  {
    Pow128Monotone(1, k);
    if v >= 128 && k > 1 {
      EncodingLength(v / 128, k - 1);
    }
  }

  /** The encoding is the shortest: its last group is needed to hold `v`. */
  lemma EncodingMinimal(v: nat)
    ensures v < Pow128(|Encoding(v)|)
    ensures |Encoding(v)| == 1 || v >= Pow128(|Encoding(v)| - 1)
  {
    var n := |Encoding(v)|;
    EncodingLength(v, n);
    if n > 1 {
      EncodingLength(v, n - 1);
    }
  }

  lemma {:induction false} DecodeFromEncoding(s: seq<byte>, count: nat, v: nat)
    requires count + |Encoding(v)| <= 9
    requires count + |Encoding(v)| <= |s| && s[count..count + |Encoding(v)|] == Encoding(v)
    ensures DecodeFrom(s, count) == Decoded(v, count + |Encoding(v)|)
    decreases v
  {
    assert s[count] == Encoding(v)[0];
    if v >= 128 {
      assert s[count + 1..count + 1 + |Encoding(v / 128)|] == Encoding(v)[1..];
      DecodeFromEncoding(s, count + 1, v / 128);
    }
  }

  /** Decoding an encoding (followed by anything) gives the value back and consumes exactly the encoding. */
  lemma RoundTrip(v: nat, rest: seq<byte>)
    requires v < TWO_POW_63
    ensures Decoding(Encoding(v) + rest) == Decoded(v, |Encoding(v)|)
  {
    Pow128Values();
    EncodingLength(v, 9);
    var s := Encoding(v) + rest;
    assert s[0..|Encoding(v)|] == Encoding(v);
    DecodeFromEncoding(s, 0, v);
  }

  lemma {:induction false} DecodeFromPrefix(s: seq<byte>, count: nat, v: nat)
    requires count + |Encoding(v)| <= 9
    requires count <= |s| < count + |Encoding(v)| && s[count..] == Encoding(v)[..|s| - count]
    ensures DecodeFrom(s, count) == NeedMore
    decreases v
  {
    if count < |s| {
      assert s[count] == Encoding(v)[0];
      assert v >= 128;
      assert s[count + 1..] == Encoding(v / 128)[..|s| - count - 1];
      DecodeFromPrefix(s, count + 1, v / 128);
    }
  }

  /** A header cut short asks for more data: nothing of it is taken as a value. */
  lemma TruncatedNeedsMore(v: nat, n: nat)
    requires v < TWO_POW_63 && n < |Encoding(v)|
    ensures Decoding(Encoding(v)[..n]) == NeedMore
  {
    Pow128Values();
    EncodingLength(v, 9);
    DecodeFromPrefix(Encoding(v)[..n], 0, v);
  }

  lemma {:induction false} DecodeFromLong(s: seq<byte>, count: nat, v: nat)
    requires count <= 9 && count + |Encoding(v)| > 9
    requires count + |Encoding(v)| <= |s| && s[count..count + |Encoding(v)|] == Encoding(v)
    ensures DecodeFrom(s, count) == Overflow
    decreases v
  {
    assert s[count] == Encoding(v)[0];
    if count < 9 {
      assert v >= 128;
      assert s[count + 1..count + 1 + |Encoding(v / 128)|] == Encoding(v)[1..];
      DecodeFromLong(s, count + 1, v / 128);
    }
  }

  /** Values of 2^63 and above need ten bytes, which the decoder refuses. */
  lemma TooLargeOverflows(v: nat, rest: seq<byte>)
    requires v >= TWO_POW_63
    ensures Decoding(Encoding(v) + rest) == Overflow
  {
    Pow128Values();
    EncodingLength(v, 9);
    var s := Encoding(v) + rest;
    assert s[0..|Encoding(v)|] == Encoding(v);
    DecodeFromLong(s, 0, v);
  }

  lemma {:induction false} DecodeFromBound(s: seq<byte>, count: nat)
    ensures DecodeFrom(s, count).Decoded? ==>
      count < DecodeFrom(s, count).length <= 9 && DecodeFrom(s, count).length <= |s| &&
      DecodeFrom(s, count).value < Pow128(DecodeFrom(s, count).length - count)
    decreases |s| - count
  {
    if count < |s| && count < 9 && s[count] >= 128 {
      DecodeFromBound(s, count + 1);
    }
  }

  /** Whatever the decoder accepts is one to nine bytes long and fits in seven bits per byte. */
  lemma DecodedBound(s: seq<byte>)
    ensures Decoding(s).Decoded? ==>
      1 <= Decoding(s).length <= 9 && Decoding(s).length <= |s| &&
      Decoding(s).value < Pow128(Decoding(s).length) && Decoding(s).value < TWO_POW_63
  {
    DecodeFromBound(s, 0);
    if Decoding(s).Decoded? {
      Pow128Monotone(Decoding(s).length, 9);
      Pow128Values();
    }
  }

  /** `d` with its value placed above `low`, each unit of it worth `scale`. */
  function Lift(d: Decoded, low: nat, scale: nat): Decoded
  {
    if d.Decoded? then Decoded(low + d.value * scale, d.length) else d
  }

  lemma LiftStep(low: nat, g: nat, v: nat, scale: nat)
    ensures low + (g + 128 * v) * scale == (low + g * scale) + v * (128 * scale)
  {
    calc {
      (g + 128 * v) * scale;
      g * scale + (128 * v) * scale;
      g * scale + v * (128 * scale);
    }
  }

  /** One byte of the encoding loop: the next byte of `whole`, and what is left after it. */
  lemma EncodeStep(whole: seq<byte>, count: nat, v: nat)
    requires count < |whole| && whole[count..] == Encoding(v)
    ensures whole[count] == if v / 128 != 0 then v % 128 + 128 else v % 128
    ensures whole[..count + 1] == whole[..count] + [whole[count]]
    ensures v / 128 != 0 ==> count + 1 < |whole| && whole[count + 1..] == Encoding(v / 128)
    ensures v / 128 == 0 ==> count + 1 == |whole|
  {
    EncodingUnfold(v);
    assert whole[count..][0] == whole[count];
    if v / 128 != 0 {
      assert whole[count + 1..] == whole[count..][1..];
    }
  }

  /**
   * mux_leb128_encode: writes the encoding of `value` into an output area of
   * `outputSize` bytes and returns its length, or INVAL once the area is full
   * (the bytes written before that are left in it).
   */
  method Encode(value: nat, outputSize: nat) returns (r: int, output: seq<byte>)
    requires value < TWO_POW_64
    ensures |Encoding(value)| <= outputSize ==> r == |Encoding(value)| && output == Encoding(value)
    ensures |Encoding(value)| > outputSize ==> r == INVAL && output == Encoding(value)[..outputSize]
  {
    ghost var whole := Encoding(value);
    var v := value;
    var count := 0;
    output := [];
    while true
      invariant count == |output| <= outputSize && count < |whole|
      invariant output == whole[..count] && whole[count..] == Encoding(v)
      decreases v
    {
      var b := v % 128;
      EncodeStep(whole, count, v);
      v := v / 128;
      if v != 0 {
        b := b + 128;
      }
      if count >= outputSize {
        return INVAL, output;
      }
      output := output + [b];
      count := count + 1;
      if v == 0 {
        break;
      }
    }
    r := count;
  }

  /**
   * mux_leb128_decode: reads one varint from the front of `input`.  OK with
   * the value and its length in bytes; AGAIN when the input ends inside it;
   * INVAL when it runs to a tenth byte.  The out-values are 0 unless OK.
   */
  method Decode(input: seq<byte>) returns (r: int, value: nat, bytesRead: nat)
    ensures Decoding(input).Decoded? ==>
      r == OK && value == Decoding(input).value && bytesRead == Decoding(input).length
    ensures Decoding(input).NeedMore? ==> r == AGAIN
    ensures Decoding(input).Overflow? ==> r == INVAL
  {
    var result: nat := 0;
    var shift := 0;
    var count := 0;
    while true
      invariant count <= 9 && shift == 7 * count
      invariant Decoding(input) == Lift(DecodeFrom(input, count), result, Pow128(count))
      decreases 9 - count
    {
      if count >= |input| {
        return AGAIN, 0, 0;
      }
      var b := input[count];
      ghost var low := result;
      ghost var rest := DecodeFrom(input, count + 1);
      var scale := Pow128(count);
      count := count + 1;
      // A left shift by `shift` bits multiplies by 128^(shift / 7); only bits
      // below that shift are set so far, so OR-ing the group in adds it.
      result := result + (b % 128) * scale;
      shift := shift + 7;
      if shift >= 64 {
        return INVAL, 0, 0;
      }
      if b < 128 {
        break;
      }
      if rest.Decoded? {
        LiftStep(low, b % 128, rest.value, scale);
      }
    }
    r, value, bytesRead := OK, result, count;
  }
}
