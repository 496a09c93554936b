/** Decoding the base64 of an upload's path (`decode_path` in tools/graphics-wiretap.c). */
module PathDecoding {
  import opened Octets
  import opened Wrappers

  const PATH_MAX: nat := 4096
  const PAD: Byte := 61  // '='

  /** `uint32_t` arithmetic wraps at this modulus. */
  const UINT32: int := 0x1_0000_0000

  /** One of the 64 values a symbol stands for. */
  type Sextet = x: int | 0 <= x < 64

  function Base64Value(c: Byte): int {
    if 65 <= c <= 90 then c - 65            // 'A'..'Z'
    else if 97 <= c <= 122 then c - 97 + 26 // 'a'..'z'
    else if 48 <= c <= 57 then c - 48 + 52  // '0'..'9'
    else if c == 43 then 62                 // '+'
    else if c == 47 then 63                 // '/'
    else -1
  }

  /** `bits << 6 | value` on 32 bits. */
  function PushBits(bits: int, value: int): int {
    (bits * 64 + value) % UINT32
  }

  /** `bits >> count & 0xFF` for the counts that occur. */
  function TopByte(bits: int, count: nat): Byte
    requires bits >= 0 && count in {0, 2, 4}
  {
    if count == 0 then bits % 256 else if count == 2 then bits / 4 % 256 else bits / 16 % 256
  }

  /** What is left to decode, with the accumulator, its number of pending bits and the output. */
  function DecodeFrom(input: Bytes, bits: int, count: nat, out: Bytes): (r: Option<Bytes>)
    requires 0 <= bits && count in {0, 2, 4, 6}
    ensures |out| < PATH_MAX && r.Some? ==> 0 < |r.value| < PATH_MAX
    decreases |input|
  {
    if input == [] || input[0] == PAD then if out == [] then None else Some(out)
    else
      var value := Base64Value(input[0]);
      if value < 0 then None
      else
        var pushed := PushBits(bits, value);
        if count < 2 then DecodeFrom(input[1..], pushed, count + 6, out)
        else if |out| + 1 >= PATH_MAX then None
        else DecodeFrom(input[1..], pushed, count - 2, out + [TopByte(pushed, count - 2)])
  }

  function Decode(input: Bytes): Option<Bytes> {
    DecodeFrom(input, 0, 0, [])
  }

  /** `decode_path`, filling the caller's buffer: the decoded bytes and a terminating zero. */
  method DecodePath(input: Bytes, path: array<Byte>) returns (ok: bool)
    requires path.Length == PATH_MAX
    modifies path
    ensures ok <==> Decode(input).Some?
    ensures ok ==> path[..|Decode(input).value|] == Decode(input).value && path[|Decode(input).value|] == 0
  {
    var used := 0;
    var bits := 0;
    var count := 0;
    var i := 0;
    while i < |input| && input[i] != PAD
      invariant 0 <= i <= |input| && used < PATH_MAX && 0 <= bits && count in {0, 2, 4, 6}
      invariant Decode(input) == DecodeFrom(input[i..], bits, count, path[..used])
    {
      assert input[i..][1..] == input[i + 1..];
      var value := Base64Value(input[i]);
      if value < 0 {
        return false;
      }
      bits := PushBits(bits, value);
      count := count + 6;
      if count >= 8 {
        count := count - 8;
        if used + 1 >= PATH_MAX {
          return false;
        }
        ghost var before := path[..used];
        path[used] := TopByte(bits, count);
        used := used + 1;
        assert path[..used] == before + [TopByte(bits, count)];
      }
      i := i + 1;
    }
    path[used] := 0;
    ok := used > 0;
  }

  // ---------------------------------------------------------------- the encoder of RFC 4648, section 4

  function Symbol(v: Sextet): (c: Byte)
    ensures Base64Value(c) == v && c != PAD
  {
    if v < 26 then v + 65 else if v < 52 then v - 26 + 97 else if v < 62 then v - 52 + 48
    else if v == 62 then 43 else 47
  }

  function Encode(bytes: Bytes): Bytes {
    if bytes == [] then []
    else if |bytes| == 1 then
      [Symbol(bytes[0] / 4), Symbol(bytes[0] % 4 * 16), PAD, PAD]
    else if |bytes| == 2 then
      [Symbol(bytes[0] / 4), Symbol(bytes[0] % 4 * 16 + bytes[1] / 16), Symbol(bytes[1] % 16 * 4), PAD]
    else
      [Symbol(bytes[0] / 4), Symbol(bytes[0] % 4 * 16 + bytes[1] / 16),
       Symbol(bytes[1] % 16 * 4 + bytes[2] / 64), Symbol(bytes[2] % 64)] + Encode(bytes[3..])
  }

  /** However often the accumulator has wrapped, its low twelve bits are the last two sextets. */
  lemma LowBits(bits: int, previous: Sextet, value: Sextet)
    requires 0 <= bits && bits % 64 == previous
    ensures 0 <= PushBits(bits, value)
    ensures PushBits(bits, value) % 64 == value
    ensures PushBits(bits, value) % 4096 == previous * 64 + value
  {
    var whole := bits * 64 + value;
    var high := bits / 64;
    assert whole == 4096 * high + (previous * 64 + value);
    var wraps := whole / UINT32;
    var pushed := PushBits(bits, value);
    assert whole == UINT32 * wraps + pushed;
    assert pushed == 4096 * (high - 1048576 * wraps) + (previous * 64 + value);
  }

  lemma Residue(whole: int, k: int, r: int)
    requires 0 <= r < 256 && whole == 256 * k + r
    ensures whole % 256 == r
  {
  }

  lemma TopByte4(bits: int, low: int, high: int)
    requires 0 <= low < 4096 && 0 <= bits == 4096 * high + low
    ensures TopByte(bits, 4) == low / 16
  {
    Residue(bits / 16, high, low / 16);
  }

  lemma TopByte2(bits: int, low: int, high: int)
    requires 0 <= low < 4096 && 0 <= bits == 4096 * high + low
    ensures TopByte(bits, 2) == low / 4 % 256
  {
    var quotient := low / 4 / 256;
    Residue(bits / 4, 4 * high + quotient, low / 4 % 256);
  }

  lemma TopByte0(bits: int, low: int, high: int)
    requires 0 <= low < 4096 && 0 <= bits == 4096 * high + low
    ensures TopByte(bits, 0) == low % 256
  {
    var quotient := low / 256;
    Residue(bits, 16 * high + quotient, low % 256);
  }

  lemma TopOfLowBits(bits: int, low: int)
    requires 0 <= bits && 0 <= low < 4096 && bits % 4096 == low
    ensures TopByte(bits, 4) == low / 16
    ensures TopByte(bits, 2) == low / 4 % 256
    ensures TopByte(bits, 0) == low % 256
  {
    var high := bits / 4096;
    assert bits == 4096 * high + low;
    TopByte4(bits, low, high);
    TopByte2(bits, low, high);
    TopByte0(bits, low, high);
  }

  /** One symbol of a group: what is pushed, and the byte it completes, if it does. */
  lemma DecodeSymbol(value: Sextet, rest: Bytes, bits: int, count: nat, out: Bytes, previous: Sextet)
    requires 0 <= bits && bits % 64 == previous && count in {0, 2, 4, 6}
    requires count >= 2 ==> |out| + 1 < PATH_MAX
    ensures var pushed := PushBits(bits, value);
            var low := previous * 64 + value;
            && 0 <= pushed && pushed % 64 == value
            && DecodeFrom([Symbol(value)] + rest, bits, count, out) ==
               (if count == 0 then DecodeFrom(rest, pushed, 6, out)
                else if count == 6 then DecodeFrom(rest, pushed, 4, out + [low / 16])
                else if count == 4 then DecodeFrom(rest, pushed, 2, out + [low / 4 % 256])
                else DecodeFrom(rest, pushed, 0, out + [low % 256]))
  {
    LowBits(bits, previous, value);
    TopOfLowBits(PushBits(bits, value), previous * 64 + value);
    assert ([Symbol(value)] + rest)[1..] == rest;
  }

  lemma RepackFirst(b: Byte, h: int)
    requires 0 <= h < 16
    ensures 0 <= b / 4 < 64 && 0 <= b % 4 * 16 + h < 64
    ensures (b / 4 * 64 + (b % 4 * 16 + h)) / 16 == b
  {
    assert b / 4 * 64 + (b % 4 * 16 + h) == 16 * b + h;
  }

  lemma RepackMiddle(b: Byte, c: int, d: int)
    requires 0 <= c < 4 && 0 <= d < 4
    ensures 0 <= b / 16 < 16 && 0 <= b % 16 * 4 + d < 64
    ensures ((c * 16 + b / 16) * 64 + (b % 16 * 4 + d)) / 4 % 256 == b
  {
    var low := (c * 16 + b / 16) * 64 + (b % 16 * 4 + d);
    assert low == 4 * (256 * c + b) + d;
    assert low / 4 == 256 * c + b;
  }

  lemma RepackLast(b: Byte, e: int)
    requires 0 <= e < 16
    ensures 0 <= b / 64 < 4 && 0 <= b % 64 < 64
    ensures ((e * 4 + b / 64) * 64 + b % 64) % 256 == b
  {
    assert (e * 4 + b / 64) * 64 + b % 64 == 256 * e + b;
  }

  /** The sextets of three bytes, and the bytes back from neighbouring sextets. */
  lemma Repack(b0: Byte, b1: Byte, b2: Byte)
    ensures 0 <= b0 / 4 < 64 && 0 <= b0 % 4 * 16 + b1 / 16 < 64
    ensures 0 <= b1 % 16 * 4 + b2 / 64 < 64 && 0 <= b2 % 64 < 64
    ensures (b0 / 4 * 64 + (b0 % 4 * 16 + b1 / 16)) / 16 == b0
    ensures ((b0 % 4 * 16 + b1 / 16) * 64 + (b1 % 16 * 4 + b2 / 64)) / 4 % 256 == b1
    ensures ((b1 % 16 * 4 + b2 / 64) * 64 + b2 % 64) % 256 == b2
  {
    RepackFirst(b0, b1 / 16);
    RepackMiddle(b1, b0 % 4, b2 / 64);
    RepackLast(b2, b1 % 16);
  }

  /** Two symbols from an empty accumulator complete one byte, and leave the second's low bits. */
  lemma DecodeFirstByte(v0: Sextet, v1: Sextet, rest: Bytes, bits: int, out: Bytes) returns (after: int)
    requires 0 <= bits && |out| + 1 < PATH_MAX
    ensures 0 <= after && after % 64 == v1
    ensures DecodeFrom([Symbol(v0)] + ([Symbol(v1)] + rest), bits, 0, out) ==
            DecodeFrom(rest, after, 4, out + [(v0 * 64 + v1) / 16])
  {
    DecodeSymbol(v0, [Symbol(v1)] + rest, bits, 0, out, bits % 64);
    var pushed := PushBits(bits, v0);
    DecodeSymbol(v1, rest, pushed, 6, out, v0);
    after := PushBits(pushed, v1);
  }

  /** The next two symbols complete one byte each. */
  lemma DecodeNextBytes(v1: Sextet, v2: Sextet, v3: Sextet, rest: Bytes, bits: int, out: Bytes) returns (after: int)
    requires 0 <= bits && bits % 64 == v1 && |out| + 2 < PATH_MAX
    ensures 0 <= after
    ensures DecodeFrom([Symbol(v2)] + ([Symbol(v3)] + rest), bits, 4, out) ==
            DecodeFrom(rest, after, 0, out + [(v1 * 64 + v2) / 4 % 256] + [(v2 * 64 + v3) % 256])
  {
    DecodeSymbol(v2, [Symbol(v3)] + rest, bits, 4, out, v1);
    var pushed := PushBits(bits, v2);
    DecodeSymbol(v3, rest, pushed, 2, out + [(v1 * 64 + v2) / 4 % 256], v2);
    after := PushBits(pushed, v3);
  }

  lemma Regroup(a: Byte, b: Byte, c: Byte, d: Byte, rest: Bytes)
    ensures [a, b, c, d] + rest == [a] + ([b] + ([c] + ([d] + rest)))
  {
  }

  /** A whole group of four symbols decodes to its three bytes and leaves no bit pending. */
  lemma DecodeGroup(b0: Byte, b1: Byte, b2: Byte, rest: Bytes, bits: int, out: Bytes) returns (after: int)
    requires 0 <= bits && |out| + 3 < PATH_MAX
    ensures 0 <= after
    ensures DecodeFrom([Symbol(b0 / 4), Symbol(b0 % 4 * 16 + b1 / 16),
                        Symbol(b1 % 16 * 4 + b2 / 64), Symbol(b2 % 64)] + rest, bits, 0, out)
            == DecodeFrom(rest, after, 0, out + [b0, b1, b2])
  {
    Repack(b0, b1, b2);
    var v0: Sextet, v1: Sextet, v2: Sextet, v3: Sextet := b0 / 4, b0 % 4 * 16 + b1 / 16, b1 % 16 * 4 + b2 / 64, b2 % 64;
    Regroup(Symbol(v0), Symbol(v1), Symbol(v2), Symbol(v3), rest);
    var middle := DecodeFirstByte(v0, v1, [Symbol(v2)] + ([Symbol(v3)] + rest), bits, out);
    after := DecodeNextBytes(v1, v2, v3, rest, middle, out + [b0]);
    assert out + [b0] + [b1] + [b2] == out + [b0, b1, b2];
  }

  /** A last group of one or two bytes decodes up to its padding. */
  lemma DecodePadded(bytes: Bytes, bits: int, out: Bytes)
    requires 0 <= bits && 0 < |bytes| < 3 && |out| + |bytes| < PATH_MAX
    ensures DecodeFrom(Encode(bytes), bits, 0, out) == Some(out + bytes)
  {
    if |bytes| == 1 {
      var v0: Sextet, v1: Sextet := bytes[0] / 4, bytes[0] % 4 * 16;
      assert Encode(bytes) == [Symbol(v0)] + ([Symbol(v1)] + [PAD, PAD]);
      var after := DecodeFirstByte(v0, v1, [PAD, PAD], bits, out);
      Repack(bytes[0], 0, 0);
      assert out + [bytes[0]] == out + bytes;
    } else {
      Repack(bytes[0], bytes[1], 0);
      var v0: Sextet, v1: Sextet, v2: Sextet := bytes[0] / 4, bytes[0] % 4 * 16 + bytes[1] / 16, bytes[1] % 16 * 4;
      assert Encode(bytes) == [Symbol(v0)] + ([Symbol(v1)] + ([Symbol(v2)] + [PAD]));
      var after := DecodeFirstByte(v0, v1, [Symbol(v2)] + [PAD], bits, out);
      DecodeSymbol(v2, [PAD], after, 4, out + [bytes[0]], v1);
      assert out + [bytes[0]] + [bytes[1]] == out + bytes;
    }
  }

  lemma {:induction false} DecodeEncoded(bytes: Bytes, bits: int, out: Bytes)
    requires 0 <= bits && 0 < |out + bytes| < PATH_MAX
    ensures DecodeFrom(Encode(bytes), bits, 0, out) == Some(out + bytes)
    decreases |bytes|
  {
    if bytes == [] {
      assert out + bytes == out;
    } else if |bytes| < 3 {
      DecodePadded(bytes, bits, out);
    } else {
      var after := DecodeGroup(bytes[0], bytes[1], bytes[2], Encode(bytes[3..]), bits, out);
      var next := out + [bytes[0], bytes[1], bytes[2]];
      assert next + bytes[3..] == out + bytes;
      DecodeEncoded(bytes[3..], after, next);
    }
  }

  /** Decoding an encoded path gives exactly the path, although the accumulator wraps - if and only
      if the path is non-empty and leaves room for its terminator. */
  lemma DecodesExactlyTheFittingPaths(bytes: Bytes)
    ensures Decode(Encode(bytes)) == Some(bytes) <==> 0 < |bytes| < PATH_MAX
  {
    if 0 < |bytes| < PATH_MAX {
      assert [] + bytes == bytes;
      DecodeEncoded(bytes, 0, []);
    }
  }

  /** Decoding stops at a `=`, whatever follows it. */
  lemma {:induction false} StopsAtPad(a: Bytes, more: Bytes, bits: int, count: nat, out: Bytes)
    requires PAD !in a && 0 <= bits && count in {0, 2, 4, 6}
    ensures DecodeFrom(a + [PAD] + more, bits, count, out) == DecodeFrom(a, bits, count, out)
    decreases |a|
  {
    if a != [] {
      var (value, rest) := (Base64Value(a[0]), a[1..]);
      assert (a + [PAD] + more)[1..] == rest + [PAD] + more;
      if value >= 0 {
        var pushed := PushBits(bits, value);
        if count < 2 {
          StopsAtPad(rest, more, pushed, count + 6, out);
        } else {
          StopsAtPad(rest, more, pushed, count - 2, out + [TopByte(pushed, count - 2)]);
        }
      }
    }
  }

  /** A byte before the padding that is no symbol makes the whole path unreadable. */
  lemma {:induction false} RefusesOtherBytes(a: Bytes, c: Byte, more: Bytes, bits: int, count: nat, out: Bytes)
    requires PAD !in a && c != PAD && Base64Value(c) < 0 && 0 <= bits && count in {0, 2, 4, 6}
    ensures DecodeFrom(a + [c] + more, bits, count, out).None?
    decreases |a|
  {
    if a != [] {
      var (value, rest) := (Base64Value(a[0]), a[1..]);
      assert (a + [c] + more)[1..] == rest + [c] + more;
      if value >= 0 {
        var pushed := PushBits(bits, value);
        if count < 2 {
          RefusesOtherBytes(rest, c, more, pushed, count + 6, out);
        } else {
          RefusesOtherBytes(rest, c, more, pushed, count - 2, out + [TopByte(pushed, count - 2)]);
        }
      }
    }
  }

  /** The symbols are the 64 of RFC 4648, section 4, so no control byte is one. */
  lemma {:induction false} EncodedInSymbols(bytes: Bytes)
    ensures forall c | c in Encode(bytes) :: c == PAD || Base64Value(c) >= 0
  {
    if |bytes| > 3 {
      EncodedInSymbols(bytes[3..]);
    }
  }
}
