/**
 * Base 64 encoding with the standard alphabet and `=` padding (section 4 of
 * RFC 4648), as used by `Data.base64EncodedString()` and
 * `Data(base64Encoded:)` in the chat wire format.
 *
 * The decoder is strict: the length must be a multiple of four, `=` may only
 * end the final quantum, no other character is accepted, and the unused bits
 * before the padding must be zero. Under these rules encoding and decoding
 * are inverse bijections (`DecodeEncode`, `EncodeDecode`).
 */
module Base64 {
  import opened Wrappers

  /** One byte of a `Data` value. */
  type byte = x: int | 0 <= x < 256

  /** A `Data` value: an ordered buffer of bytes. */
  type Bytes = seq<byte>

  /** The value of one base 64 digit. */
  type sextet = x: int | 0 <= x < 64

  const Pad: char := '='

  /** The digit of the alphabet in section 4 of RFC 4648 that stands for `v`. */
  function DigitChar(v: sextet): (c: char)
    ensures c != Pad && c != ':'
  {
    if v < 26 then ('A' as int + v) as char
    else if v < 52 then ('a' as int + (v - 26)) as char
    else if v < 62 then ('0' as int + (v - 52)) as char
    else if v == 62 then '+'
    else '/'
  }

  /** The value of the digit `c`, or None when `c` is not in the alphabet. */
  function DigitValue(c: char): (r: Option<sextet>)
    ensures r.Some? ==> DigitChar(r.value) == c
    ensures c == Pad || c == ':' ==> r.None?
  {
    if 'A' <= c <= 'Z' then Some(c as int - 'A' as int)
    else if 'a' <= c <= 'z' then Some(c as int - 'a' as int + 26)
    else if '0' <= c <= '9' then Some(c as int - '0' as int + 52)
    else if c == '+' then Some(62)
    else if c == '/' then Some(63)
    else None
  }

  lemma DigitValueOfChar(v: sextet)
    ensures DigitValue(DigitChar(v)) == Some(v)
  {
  }

  /** The characters that can appear in an encoding: digits and the pad. */
  predicate IsEncodingChar(c: char) {
    DigitValue(c).Some? || c == Pad
  }

  /** `Data.base64EncodedString()`: every three bytes become four digits; a
      final group of one or two bytes is padded with `=` to four characters. */
  function Encode(b: Bytes): (s: string)
    ensures |s| == (|b| + 2) / 3 * 4
    decreases |b|
  {
    if |b| == 0 then ""
    else if |b| == 1 then EncodeOne(b[0])
    else if |b| == 2 then EncodeTwo(b[0], b[1])
    else EncodeQuantum(b[0], b[1], b[2]) + Encode(b[3..])
  }

  /** One final byte as two digits and `==`. */
  function EncodeOne(b0: byte): (s: string)
    ensures |s| == 4
  {
    [DigitChar(b0 / 4), DigitChar(b0 % 4 * 16), Pad, Pad]
  }

  /** Two final bytes as three digits and `=`. */
  function EncodeTwo(b0: byte, b1: byte): (s: string)
    ensures |s| == 4
  {
    [DigitChar(b0 / 4), DigitChar(b0 % 4 * 16 + b1 / 16), DigitChar(b1 % 16 * 4), Pad]
  }

  /** Three bytes as four digits, most significant bits first. */
  function EncodeQuantum(b0: byte, b1: byte, b2: byte): (s: string)
    ensures |s| == 4
  {
    [DigitChar(b0 / 4), DigitChar(b0 % 4 * 16 + b1 / 16), DigitChar(b1 % 16 * 4 + b2 / 64), DigitChar(b2 % 64)]
  }

  /** Four digits without padding as three bytes. */
  function DecodeQuantum(a: char, b: char, c: char, d: char): (r: Option<Bytes>)
    ensures r.Some? ==> |r.value| == 3
  {
    match (DigitValue(a), DigitValue(b), DigitValue(c), DigitValue(d))
    case (Some(v0), Some(v1), Some(v2), Some(v3)) => Some(JoinQuantum(v0, v1, v2, v3))
    case _ => None
  }

  /** The three bytes that four digits carry. */
  function JoinQuantum(v0: sextet, v1: sextet, v2: sextet, v3: sextet): (r: Bytes)
    ensures |r| == 3
  {
    var b0: int := v0 * 4 + v1 / 16;
    var b1: int := v1 % 16 * 16 + v2 / 4;
    var b2: int := v2 % 4 * 64 + v3;
    [b0, b1, b2]
  }

  /** The final quantum: four digits, or two digits and `==`, or three digits
      and `=`; the bits the padding drops must be zero. */
  function DecodeFinal(a: char, b: char, c: char, d: char): (r: Option<Bytes>)
    ensures r.Some? ==> 1 <= |r.value| <= 3
  {
    if c == Pad && d == Pad then
      match (DigitValue(a), DigitValue(b))
      case (Some(v0), Some(v1)) =>
        if v1 % 16 == 0 then Some(JoinQuantum(v0, v1, 0, 0)[..1]) else None
      case _ => None
    else if d == Pad then
      match (DigitValue(a), DigitValue(b), DigitValue(c))
      case (Some(v0), Some(v1), Some(v2)) =>
        if v2 % 4 == 0 then Some(JoinQuantum(v0, v1, v2, 0)[..2]) else None
      case _ => None
    else
      DecodeQuantum(a, b, c, d)
  }

  /** `Data(base64Encoded:)`: None for any string that is not a canonical
      encoding. */
  function Decode(s: string): (r: Option<Bytes>)
    ensures |s| % 4 != 0 ==> r.None?
    ensures r.Some? ==> 4 * |r.value| <= 3 * |s| < 4 * |r.value| + 12
    decreases |s|
  {
    if |s| == 0 then Some([])
    else if |s| < 4 then None
    else if |s| == 4 then DecodeFinal(s[0], s[1], s[2], s[3])
    else
      match DecodeQuantum(s[0], s[1], s[2], s[3])
      case None => None
      case Some(q) =>
        match Decode(s[4..])
        case None => None
        case Some(rest) => Some(q + rest)
  }

  /** Joining the digits of three bytes gives back the bytes. */
  lemma JoinSplit(b0: byte, b1: byte, b2: byte)
    ensures JoinQuantum(b0 / 4, b0 % 4 * 16 + b1 / 16, b1 % 16 * 4 + b2 / 64, b2 % 64) == [b0, b1, b2]
  {
  }

  lemma QuantumRoundTrip(b0: byte, b1: byte, b2: byte)
    ensures var s := EncodeQuantum(b0, b1, b2);
            DecodeQuantum(s[0], s[1], s[2], s[3]) == Some([b0, b1, b2])
            && DecodeFinal(s[0], s[1], s[2], s[3]) == Some([b0, b1, b2])
  {
    var s := EncodeQuantum(b0, b1, b2);
    DigitValueOfChar(b0 / 4);
    DigitValueOfChar(b0 % 4 * 16 + b1 / 16);
    DigitValueOfChar(b1 % 16 * 4 + b2 / 64);
    DigitValueOfChar(b2 % 64);
    JoinSplit(b0, b1, b2);
    assert s[3] != Pad;
  }

  /** Decoding undoes encoding, for every byte buffer. */
  lemma {:induction false} DecodeEncode(b: Bytes)
    ensures Decode(Encode(b)) == Some(b)
    decreases |b|
  {
    if |b| < 3 {
      DecodeEncodeShort(b);
    } else {
      DecodeEncode(b[3..]);
      EncodeCons(b);
      SplitHead(b);
      DecodeEncodeStep(b[0], b[1], b[2], Encode(b[3..]), b[3..]);
    }
  }

  lemma DecodeEncodeShort(b: Bytes)
    requires |b| < 3
    ensures Decode(Encode(b)) == Some(b)
  {
    if |b| == 1 {
      var b0 := b[0];
      assert b == [b0];
      DecodeEncodeOne(b0);
    } else if |b| == 2 {
      var b0, b1 := b[0], b[1];
      assert b == [b0, b1];
      DecodeEncodeTwo(b0, b1);
    }
  }

  lemma EncodeCons(b: Bytes)
    requires |b| >= 3
    ensures Encode(b) == EncodeQuantum(b[0], b[1], b[2]) + Encode(b[3..])
  {
  }

  lemma SplitHead(b: Bytes)
    requires |b| >= 3
    ensures b == [b[0], b[1], b[2]] + b[3..]
  {
  }

  lemma DecodeEncodeStep(b0: byte, b1: byte, b2: byte, t: string, rest: Bytes)
    requires Decode(t) == Some(rest) && (t == "" <==> rest == [])
    ensures Decode(EncodeQuantum(b0, b1, b2) + t) == Some([b0, b1, b2] + rest)
  {
    var q := EncodeQuantum(b0, b1, b2);
    QuantumRoundTrip(b0, b1, b2);
    if t == "" {
      assert q + t == q;
      assert [b0, b1, b2] + rest == [b0, b1, b2];
    } else {
      DecodeConcat(q, t, [b0, b1, b2], rest);
    }
  }

  /** A full first quantum followed by a decodable rest decodes to the
      concatenation. */
  lemma DecodeConcat(q: string, t: string, x: Bytes, y: Bytes)
    requires |q| == 4 && DecodeQuantum(q[0], q[1], q[2], q[3]) == Some(x)
    requires |t| > 0 && Decode(t) == Some(y)
    ensures Decode(q + t) == Some(x + y)
  {
    var s := q + t;
    assert s[0] == q[0] && s[1] == q[1] && s[2] == q[2] && s[3] == q[3];
    assert s[4..] == t;
  }

  lemma DecodeEncodeOne(b0: byte)
    ensures Decode(EncodeOne(b0)) == Some([b0])
  {
    var s := EncodeOne(b0);
    var v0: sextet, v1: sextet := b0 / 4, b0 % 4 * 16;
    DigitValueOfChar(v0);
    DigitValueOfChar(v1);
    assert v1 % 16 == 0;
    JoinSplit(b0, 0, 0);
    assert JoinQuantum(v0, v1, 0, 0) == [b0, 0, 0];
    assert DecodeFinal(s[0], s[1], s[2], s[3]) == Some(JoinQuantum(v0, v1, 0, 0)[..1]);
    assert JoinQuantum(v0, v1, 0, 0)[..1] == [b0];
  }

  lemma DecodeEncodeTwo(b0: byte, b1: byte)
    ensures Decode(EncodeTwo(b0, b1)) == Some([b0, b1])
  {
    var s := EncodeTwo(b0, b1);
    var v0: sextet, v1: sextet, v2: sextet := b0 / 4, b0 % 4 * 16 + b1 / 16, b1 % 16 * 4;
    DigitValueOfChar(v0);
    DigitValueOfChar(v1);
    DigitValueOfChar(v2);
    assert v2 % 4 == 0;
    JoinSplit(b0, b1, 0);
    assert JoinQuantum(v0, v1, v2, 0) == [b0, b1, 0];
    assert DecodeFinal(s[0], s[1], s[2], s[3]) == Some(JoinQuantum(v0, v1, v2, 0)[..2]);
    assert JoinQuantum(v0, v1, v2, 0)[..2] == [b0, b1];
  }

  /** An encoding holds nothing but digits and padding. */
  lemma {:induction false} EncodeChars(b: Bytes)
    ensures forall i :: 0 <= i < |Encode(b)| ==> IsEncodingChar(Encode(b)[i])
    decreases |b|
  {
    if |b| >= 3 {
      EncodeChars(b[3..]);
      QuantumChars(b[0], b[1], b[2]);
      var q := EncodeQuantum(b[0], b[1], b[2]);
      var t := Encode(b[3..]);
      assert Encode(b) == q + t;
      forall i | 0 <= i < |q + t| ensures IsEncodingChar((q + t)[i]) {
        if i >= 4 {
          assert (q + t)[i] == t[i - 4];
        }
      }
    }
  }

  /** The four characters of a full quantum are digits. */
  lemma QuantumChars(b0: byte, b1: byte, b2: byte)
    ensures forall i :: 0 <= i < 4 ==> IsEncodingChar(EncodeQuantum(b0, b1, b2)[i])
  {
    DigitValueOfChar(b0 / 4);
    DigitValueOfChar(b0 % 4 * 16 + b1 / 16);
    DigitValueOfChar(b1 % 16 * 4 + b2 / 64);
    DigitValueOfChar(b2 % 64);
  }

  /** Encoding undoes decoding: the only string that decodes to `b` is
      `Encode(b)`, so the decoder accepts canonical encodings only. */
  lemma {:induction false} EncodeDecode(s: string, b: Bytes)
    requires Decode(s) == Some(b)
    ensures Encode(b) == s
    decreases |s|
  {
    if |s| == 0 {
    } else if |s| == 4 {
      assert Decode(s) == DecodeFinal(s[0], s[1], s[2], s[3]);
      FinalCanonical(s[0], s[1], s[2], s[3]);
      assert s == [s[0], s[1], s[2], s[3]];
    } else {
      var rest := Decode(s[4..]).value;
      EncodeDecode(s[4..], rest);
      EncodeDecodeStep(s, b, rest);
    }
  }

  lemma EncodeDecodeStep(s: string, b: Bytes, rest: Bytes)
    requires |s| > 4 && Decode(s) == Some(b)
    requires Decode(s[4..]) == Some(rest) && Encode(rest) == s[4..]
    ensures Encode(b) == s
  {
    DecodeSplit(s, b);
    var q := DecodeQuantum(s[0], s[1], s[2], s[3]).value;
    QuantumCanonical(s[0], s[1], s[2], s[3]);
    EncodeInNonFinal(b, q, rest);
    SplitFour(s);
  }

  lemma SplitFour(s: string)
    requires |s| >= 4
    ensures s == [s[0], s[1], s[2], s[3]] + s[4..]
  {
    assert s == s[..4] + s[4..];
  }

  /** A decodable string longer than one quantum decodes as its first
      quantum followed by the rest. */
  lemma DecodeSplit(s: string, b: Bytes)
    requires |s| > 4 && Decode(s) == Some(b)
    ensures DecodeQuantum(s[0], s[1], s[2], s[3]).Some? && Decode(s[4..]).Some?
    ensures b == DecodeQuantum(s[0], s[1], s[2], s[3]).value + Decode(s[4..]).value
  {
  }

  /** `Encode` of a buffer of three or more bytes starts with the encoding of
      its first three. */
  lemma EncodeInNonFinal(b: Bytes, q: Bytes, rest: Bytes)
    requires |q| == 3 && b == q + rest && |rest| > 0
    ensures Encode(b) == EncodeQuantum(q[0], q[1], q[2]) + Encode(rest)
  {
    assert b[3..] == rest;
  }

  /** Splitting the bytes that four digits carry gives back the digits. */
  lemma SplitJoin(v0: sextet, v1: sextet, v2: sextet, v3: sextet)
    ensures var r := JoinQuantum(v0, v1, v2, v3);
            r[0] / 4 == v0 && r[0] % 4 * 16 + r[1] / 16 == v1
            && r[1] % 16 * 4 + r[2] / 64 == v2 && r[2] % 64 == v3
  {
  }

  lemma QuantumCanonical(a: char, b: char, c: char, d: char)
    requires DecodeQuantum(a, b, c, d).Some?
    ensures var r := DecodeQuantum(a, b, c, d).value;
            EncodeQuantum(r[0], r[1], r[2]) == [a, b, c, d]
  {
    SplitJoin(DigitValue(a).value, DigitValue(b).value, DigitValue(c).value, DigitValue(d).value);
  }

  lemma FinalCanonical(a: char, b: char, c: char, d: char)
    requires DecodeFinal(a, b, c, d).Some?
    ensures Encode(DecodeFinal(a, b, c, d).value) == [a, b, c, d]
  {
    var r := DecodeFinal(a, b, c, d).value;
    if c == Pad && d == Pad {
      OneCanonical(DigitValue(a).value, DigitValue(b).value);
    } else if d == Pad {
      TwoCanonical(DigitValue(a).value, DigitValue(b).value, DigitValue(c).value);
    } else {
      QuantumCanonical(a, b, c, d);
      assert Encode(r) == EncodeQuantum(r[0], r[1], r[2]) + Encode(r[3..]);
    }
  }

  /** Two digits whose low pad bits are zero are the encoding of their byte. */
  lemma OneCanonical(v0: sextet, v1: sextet)
    requires v1 % 16 == 0
    ensures Encode(JoinQuantum(v0, v1, 0, 0)[..1]) == [DigitChar(v0), DigitChar(v1), Pad, Pad]
  {
    var r := JoinQuantum(v0, v1, 0, 0);
    SplitJoin(v0, v1, 0, 0);
    assert Encode(r[..1]) == EncodeOne(r[0]);
  }

  /** Three digits whose low pad bits are zero are the encoding of their two
      bytes. */
  lemma TwoCanonical(v0: sextet, v1: sextet, v2: sextet)
    requires v2 % 4 == 0
    ensures Encode(JoinQuantum(v0, v1, v2, 0)[..2]) == [DigitChar(v0), DigitChar(v1), DigitChar(v2), Pad]
  {
    var r := JoinQuantum(v0, v1, v2, 0);
    SplitJoin(v0, v1, v2, 0);
    assert Encode(r[..2]) == EncodeTwo(r[0], r[1]);
  }
}
