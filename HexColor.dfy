/**
 * The colour initialisers of `Ext+UIColor`: `UIColor(hex: Int)` splits an
 * integer into channels, `UIColor(hex: String)` cleans up and parses a hex
 * string first. A colour is given by its four 8-bit channels.
 */
module HexColor {
  import opened Wrappers
  import Text

  type byte = x: int | 0 <= x < 256

  /** Swift's `Int`, 64 bits wide. */
  type int64 = x: int | -0x8000_0000_0000_0000 <= x < 0x8000_0000_0000_0000

  /** One past the largest `UInt`. */
  const UIntLimit: int := 0x1_0000_0000_0000_0000

  /** The channels passed to `init(red:green:blue:alpha:)`. */
  datatype Rgba = Rgba(red: byte, green: byte, blue: byte, alpha: byte)

  /** `UIColor(hex: Int)`. Above `0xffffff` the value is read as
      `0xRRGGBBAA`, otherwise as `0xRRGGBB` with full alpha. `>>` shifts
      arithmetically and `& 0xff` keeps the low byte of the two's complement
      form, which is floor division followed by the Euclidean remainder. */
  function ColorFromInt(hex: int64): (r: Rgba)
    ensures hex <= 0xffffff ==> r.alpha == 255 && r.blue == hex % 0x100
    ensures hex > 0xffffff ==> r.alpha == hex % 0x100 && r.blue == (hex / 0x100) % 0x100
  {
    if hex > 0xffffff then
      Rgba((hex / 0x100_0000) % 0x100, (hex / 0x1_0000) % 0x100, (hex / 0x100) % 0x100, hex % 0x100)
    else
      Rgba((hex / 0x1_0000) % 0x100, (hex / 0x100) % 0x100, hex % 0x100, 255)
  }

  /** A value up to `0xffffff` is its red, green and blue bytes, opaque. */
  lemma ColorFromIntRgb(hex: int64)
    requires 0 <= hex <= 0xffffff
    ensures var c := ColorFromInt(hex);
      c.red * 0x1_0000 + c.green * 0x100 + c.blue == hex && c.alpha == 255
  {
  }

  /** A larger value is its low 32 bits, as red, green, blue and alpha. */
  lemma ColorFromIntRgba(hex: int64)
    requires hex > 0xffffff
    ensures var c := ColorFromInt(hex);
      c.red * 0x100_0000 + c.green * 0x1_0000 + c.blue * 0x100 + c.alpha == hex % 0x1_0000_0000
  {
    var q := hex / 0x100;
    var q2 := q / 0x100;
    var q3 := q2 / 0x100;
    assert hex == q * 0x100 + hex % 0x100;
    assert q == q2 * 0x100 + q % 0x100;
    assert q2 == q3 * 0x100 + q2 % 0x100;
    assert q3 == (q3 / 0x100) * 0x100 + q3 % 0x100;
    assert hex / 0x1_0000 == q2;
    assert hex / 0x100_0000 == q3;
  }

  /** A negative value takes the RGB branch on its low 24 bits, as two's
      complement. */
  lemma ColorFromIntNegative(hex: int64)
    requires hex < 0
    ensures ColorFromInt(hex) == ColorFromInt(hex % 0x100_0000)
  {
    LowChannels(hex / 0x100_0000, hex % 0x100_0000);
  }

  /** The three low bytes of `q * 2^24 + low` are those of `low`. */
  lemma LowChannels(q: int, low: int)
    requires 0 <= low < 0x100_0000
    ensures (q * 0x100_0000 + low) % 0x100 == low % 0x100
    ensures ((q * 0x100_0000 + low) / 0x100) % 0x100 == (low / 0x100) % 0x100
    ensures ((q * 0x100_0000 + low) / 0x1_0000) % 0x100 == low / 0x1_0000
  {
    var h := q * 0x100_0000 + low;
    var y := low / 0x100;
    DivModByte(h, q * 0x1_0000 + y, low % 0x100);
    DivModByte(q * 0x1_0000 + y, q * 0x100 + y / 0x100, y % 0x100);
    DivModShort(h, q * 0x100 + low / 0x1_0000, low % 0x1_0000);
    DivModByte(q * 0x100 + low / 0x1_0000, q, low / 0x1_0000);
  }

  /** Floor division by 2^8 and the Euclidean remainder are the unique
      quotient and remainder. */
  lemma DivModByte(h: int, a: int, b: int)
    requires 0 <= b < 0x100 && h == a * 0x100 + b
    ensures h / 0x100 == a && h % 0x100 == b
  {
  }

  /** The same for division by 2^24. */
  lemma DivModTriple(h: int, a: int, b: int)
    requires 0 <= b < 0x100_0000 && h == a * 0x100_0000 + b
    ensures h / 0x100_0000 == a && h % 0x100_0000 == b
  {
  }

  /** The same for division by 2^16. */
  lemma DivModShort(h: int, a: int, b: int)
    requires 0 <= b < 0x1_0000 && h == a * 0x1_0000 + b
    ensures h / 0x1_0000 == a && h % 0x1_0000 == b
  {
  }

  /** `0xRRGGBBAA` with a zero red byte is at most `0xffffff`, so it reads as
      `0xGGBBAA`: an opaque colour with the channels shifted. */
  lemma ZeroRedReadsAsRgb(green: byte, blue: byte, alpha: byte)
    ensures ColorFromInt(green * 0x1_0000 + blue * 0x100 + alpha) == Rgba(green, blue, alpha, 255)
  {
    ColorOfRgbBytes(green, blue, alpha);
  }

  // ---------------------------------------------------------------------------
  // Parsing
  // ---------------------------------------------------------------------------

  /** The value of an ASCII digit or letter in base 16. */
  function HexDigitValue(c: char): (r: Option<nat>)
    ensures r.Some? ==> r.value < 16
  {
    if '0' <= c <= '9' then Some(c as int - '0' as int)
    else if 'A' <= c <= 'F' then Some(c as int - 'A' as int + 10)
    else if 'a' <= c <= 'f' then Some(c as int - 'a' as int + 10)
    else None
  }

  /** The value of a string of base 16 digits, without a width limit. */
  function DigitsValue(s: string): (r: Option<nat>)
    ensures r.Some? <==> forall k :: 0 <= k < |s| ==> HexDigitValue(s[k]).Some?
    ensures s == [] ==> r == Some(0)
    decreases |s|
  {
    if s == [] then Some(0)
    else
      match (DigitsValue(s[..|s| - 1]), HexDigitValue(s[|s| - 1]))
      case (Some(v), Some(d)) => Some(v * 16 + d)
      case _ => None
  }

  /** `UInt(text, radix: 16)`: an optional `+` or `-`, then at least one
      digit; nil for anything else, for a value that does not fit in 64 bits,
      and for a negative value other than zero. */
  function ParseUInt(s: string): (r: Option<nat>)
    ensures r.Some? ==> r.value < UIntLimit
    ensures r.Some? ==> s != [] && (|s| > 1 || HexDigitValue(s[0]).Some?)
    ensures r.Some? ==> forall k :: 0 < k < |s| ==> HexDigitValue(s[k]).Some?
    ensures r.Some? ==> s[0] == '+' || s[0] == '-' || HexDigitValue(s[0]).Some?
    ensures r.Some? && s[0] == '-' ==> r.value == 0
    ensures s != [] && DigitsValue(s).Some? && DigitsValue(s).value < UIntLimit ==> r == DigitsValue(s)
  {
    if s == [] then None
    else
      var negative := s[0] == '-';
      var digits := if s[0] == '-' || s[0] == '+' then s[1..] else s;
      if digits == [] then None
      else
        match DigitsValue(digits)
        case None => None
        case Some(v) =>
          if v >= UIntLimit then None
          else if negative && v != 0 then None
          else Some(v)
  }

  /** The string `init(hex: String)` parses: trimmed, upper-cased, and with
      every `#` removed. */
  function Sanitized(s: string): (r: string)
    ensures '#' !in r
    ensures forall x :: x != '#' ==> (x in r <==> x in Text.Uppercased(Text.Trim(s)))
    ensures multiset(r) == multiset(Text.Uppercased(Text.Trim(s)))['#' := 0]
  {
    Text.RemoveAll(Text.Uppercased(Text.Trim(s)), '#')
  }

  /** Around a `#`, the sanitised string is what is left of the two sides,
      in order; with no `#` it is the trimmed, upper-cased input. */
  lemma SanitizedSplit(s: string, a: string, b: string)
    requires Text.Uppercased(Text.Trim(s)) == a + "#" + b
    ensures Sanitized(s) == Text.RemoveAll(a, '#') + Text.RemoveAll(b, '#')
  {
    Text.RemoveAllAround(a, b, '#');
  }

  lemma SanitizedNoHash(s: string)
    requires '#' !in Text.Uppercased(Text.Trim(s))
    ensures Sanitized(s) == Text.Uppercased(Text.Trim(s))
  {
    Text.RemoveAllAbsent(Text.Uppercased(Text.Trim(s)), '#');
  }

  /** What `init(hex: String)` ends in: a colour, or the trap of `Int(hex)`
      on a parsed value above `Int.max`. */
  datatype ColorOutcome = Color(rgba: Rgba) | Trap

  /** `UIColor(hex: String)`: a string that does not parse reads as 0, which
      is opaque black. */
  function ColorFromString(s: string): (r: ColorOutcome)
    ensures r.Trap? <==> match ParseUInt(Sanitized(s)) case Some(v) => v >= 0x8000_0000_0000_0000 case None => false
    ensures ParseUInt(Sanitized(s)).None? ==> r == Color(Rgba(0, 0, 0, 255))
  {
    var hex := match ParseUInt(Sanitized(s)) case Some(v) => v case None => 0;
    if hex >= 0x8000_0000_0000_0000 then Trap else Color(ColorFromInt(hex))
  }

  /** A character that can be neither a digit nor a leading sign makes the
      string black. */
  lemma NotHexIsBlack(s: string, k: nat)
    requires k < |Sanitized(s)| && HexDigitValue(Sanitized(s)[k]).None?
    requires k == 0 ==> Sanitized(s)[0] != '+' && Sanitized(s)[0] != '-'
    ensures ColorFromString(s) == Color(Rgba(0, 0, 0, 255))
  {
    var t := Sanitized(s);
    if t[0] == '-' || t[0] == '+' {
      assert t[1..][k - 1] == t[k];
    }
  }

  /** `"-1"` has a sign `UInt` refuses on a non-zero value, so it is black. */
  lemma MinusOneIsBlack()
    ensures ParseUInt(Sanitized("-1")) == None
    ensures ColorFromString("-1") == Color(Rgba(0, 0, 0, 255))
  {
    SanitizedMinusOne();
    ParseMinusOne();
  }

  lemma ParseMinusOne()
    ensures ParseUInt("-1") == None
  {
    assert "-1"[1..] == "1";
    assert "1"[..0] == [];
    assert DigitsValue("1") == Some(1);
  }

  lemma SanitizedMinusOne()
    ensures Sanitized("-1") == "-1"
  {
    Text.TrimUntouched("-1");
    assert Text.Uppercased("-1") == "-1";
    SanitizedNoHash("-1");
  }

  /** A blank string is black. */
  lemma BlankIsBlack(s: string)
    requires forall k :: 0 <= k < |s| ==> Text.IsWhitespaceOrNewline(s[k])
    ensures ColorFromString(s) == Color(Rgba(0, 0, 0, 255))
  {
    Text.TrimEmpty(s);
  }

  // ---------------------------------------------------------------------------
  // "#RRGGBB" and "#RRGGBBAA"
  // ---------------------------------------------------------------------------

  function HexDigitChar(d: nat): (c: char)
    requires d < 16
    ensures HexDigitValue(c) == Some(d)
  {
    if d < 10 then ('0' as int + d) as char else ('A' as int + d - 10) as char
  }

  /** The two upper-case digits of a byte. */
  function HexByte(b: byte): (s: string)
    ensures |s| == 2 && AllUpperHex(s)
  {
    [HexDigitChar(b / 16), HexDigitChar(b % 16)]
  }

  lemma DigitsValueAppendByte(s: string, v: nat, b: byte)
    requires DigitsValue(s) == Some(v)
    ensures DigitsValue(s + HexByte(b)) == Some(v * 256 + b)
  {
    var h := HexByte(b);
    assert (s + h)[..|s + h| - 1] == s + [h[0]];
    assert (s + [h[0]])[..|s|] == s;
  }

  /** The characters of `HexByte`s: upper-case digits. */
  predicate IsUpperHexDigit(c: char) {
    '0' <= c <= '9' || 'A' <= c <= 'F'
  }

  lemma SanitizedHash(digits: string)
    requires digits != [] && AllUpperHex(digits)
    ensures Sanitized("#" + digits) == digits
  {
    var s := "#" + digits;
    Text.TrimUntouched(s);
    assert Text.Uppercased(s) == s;
    Text.RemoveAllAbsent(digits, '#');
    assert s[1..] == digits;
  }

  /** A string of digits with no sign parses to its value. */
  lemma ParseDigits(digits: string, v: nat)
    requires digits != [] && IsUpperHexDigit(digits[0])
    requires DigitsValue(digits) == Some(v) && v < UIntLimit
    ensures ParseUInt(digits) == Some(v)
  {
  }

  lemma ColorOfSanitized(s: string, v: nat)
    requires ParseUInt(Sanitized(s)) == Some(v) && v < 0x8000_0000_0000_0000
    ensures ColorFromString(s) == Color(ColorFromInt(v))
  {
  }

  lemma ColorOfRgbBytes(red: byte, green: byte, blue: byte)
    ensures ColorFromInt(red * 0x1_0000 + green * 0x100 + blue) == Rgba(red, green, blue, 255)
  {
    var v := red * 0x1_0000 + green * 0x100 + blue;
    DivModByte(v, red * 0x100 + green, blue);
    DivModByte(red * 0x100 + green, red, green);
    DivModShort(v, red, green * 0x100 + blue);
    DivModByte(red, 0, red);
  }

  lemma ColorOfRgbaBytes(red: byte, green: byte, blue: byte, alpha: byte)
    requires red > 0
    ensures ColorFromInt(red * 0x100_0000 + green * 0x1_0000 + blue * 0x100 + alpha) == Rgba(red, green, blue, alpha)
  {
    var v := red * 0x100_0000 + green * 0x1_0000 + blue * 0x100 + alpha;
    DivModByte(v, red * 0x1_0000 + green * 0x100 + blue, alpha);
    DivModByte(red * 0x1_0000 + green * 0x100 + blue, red * 0x100 + green, blue);
    DivModShort(v, red * 0x100 + green, blue * 0x100 + alpha);
    DivModByte(red * 0x100 + green, red, green);
    DivModTriple(v, red, green * 0x1_0000 + blue * 0x100 + alpha);
    DivModByte(red, 0, red);
  }

  /** The digits of three bytes are worth the bytes, most significant first. */
  lemma DigitsOfRgb(red: byte, green: byte, blue: byte)
    ensures DigitsValue(HexByte(red) + HexByte(green) + HexByte(blue)) == Some(red * 0x1_0000 + green * 0x100 + blue)
  {
    DigitsValueAppendByte([], 0, red);
    assert [] + HexByte(red) == HexByte(red);
    DigitsValueAppendByte(HexByte(red), red, green);
    DigitsValueAppendByte(HexByte(red) + HexByte(green), red * 256 + green, blue);
  }

  lemma DigitsOfRgba(red: byte, green: byte, blue: byte, alpha: byte)
    ensures DigitsValue(HexByte(red) + HexByte(green) + HexByte(blue) + HexByte(alpha))
            == Some(red * 0x100_0000 + green * 0x1_0000 + blue * 0x100 + alpha)
  {
    DigitsOfRgb(red, green, blue);
    DigitsValueAppendByte(HexByte(red) + HexByte(green) + HexByte(blue), red * 0x1_0000 + green * 0x100 + blue, alpha);
  }

  predicate AllUpperHex(s: string) {
    forall k :: 0 <= k < |s| ==> IsUpperHexDigit(s[k])
  }

  lemma AllUpperHexConcat(a: string, b: string)
    requires AllUpperHex(a) && AllUpperHex(b)
    ensures AllUpperHex(a + b)
  {
  }

  /** `"#RRGGBB"` gives those channels, opaque. */
  lemma ColorFromHexRgb(red: byte, green: byte, blue: byte)
    ensures ColorFromString("#" + HexByte(red) + HexByte(green) + HexByte(blue))
            == Color(Rgba(red, green, blue, 255))
  {
    var digits := HexByte(red) + HexByte(green) + HexByte(blue);
    assert "#" + HexByte(red) + HexByte(green) + HexByte(blue) == "#" + digits;
    AllUpperHexConcat(HexByte(red), HexByte(green));
    AllUpperHexConcat(HexByte(red) + HexByte(green), HexByte(blue));
    DigitsOfRgb(red, green, blue);
    ColorOfDigits(digits, red * 0x1_0000 + green * 0x100 + blue);
    ColorOfRgbBytes(red, green, blue);
  }

  /** `"#RRGGBBAA"` gives those channels when red is not zero. */
  lemma ColorFromHexRgba(red: byte, green: byte, blue: byte, alpha: byte)
    requires red > 0
    ensures ColorFromString("#" + HexByte(red) + HexByte(green) + HexByte(blue) + HexByte(alpha))
            == Color(Rgba(red, green, blue, alpha))
  {
    var digits := RgbaDigits(red, green, blue, alpha);
    ColorOfDigits(digits, red * 0x100_0000 + green * 0x1_0000 + blue * 0x100 + alpha);
    ColorOfRgbaBytes(red, green, blue, alpha);
  }

  /** The eight digits of `"#RRGGBBAA"`, and what they are worth. */
  lemma RgbaDigits(red: byte, green: byte, blue: byte, alpha: byte) returns (digits: string)
    ensures "#" + HexByte(red) + HexByte(green) + HexByte(blue) + HexByte(alpha) == "#" + digits
    ensures digits != [] && AllUpperHex(digits)
    ensures DigitsValue(digits) == Some(red * 0x100_0000 + green * 0x1_0000 + blue * 0x100 + alpha)
  {
    var rgb := HexByte(red) + HexByte(green) + HexByte(blue);
    digits := rgb + HexByte(alpha);
    AllUpperHexConcat(HexByte(red), HexByte(green));
    AllUpperHexConcat(HexByte(red) + HexByte(green), HexByte(blue));
    AllUpperHexConcat(rgb, HexByte(alpha));
    DigitsOfRgba(red, green, blue, alpha);
  }

  /** `"#"` and upper-case digits worth less than 2^63 give the colour of
      their value. */
  lemma ColorOfDigits(digits: string, v: nat)
    requires digits != [] && AllUpperHex(digits)
    requires DigitsValue(digits) == Some(v) && v < 0x8000_0000_0000_0000
    ensures ColorFromString("#" + digits) == Color(ColorFromInt(v))
  {
    SanitizedHash(digits);
    ParseDigits(digits, v);
    ColorOfSanitized("#" + digits, v);
  }

  /** The upper-case digits of a byte string, two per byte. */
  function HexBytes(bs: seq<byte>): (s: string)
    ensures |s| == 2 * |bs| && AllUpperHex(s)
    decreases |bs|
  {
    if bs == [] then [] else HexBytes(bs[..|bs| - 1]) + HexByte(bs[|bs| - 1])
  }

  /** The big-endian value of a byte string. */
  function BytesValue(bs: seq<byte>): nat
    decreases |bs|
  {
    if bs == [] then 0 else BytesValue(bs[..|bs| - 1]) * 256 + bs[|bs| - 1]
  }

  lemma {:induction false} DigitsOfBytes(bs: seq<byte>)
    ensures DigitsValue(HexBytes(bs)) == Some(BytesValue(bs))
    decreases |bs|
  {
    if bs != [] {
      var init := bs[..|bs| - 1];
      DigitsOfBytes(init);
      DigitsValueAppendByte(HexBytes(init), BytesValue(init), bs[|bs| - 1]);
    }
  }

  /** Sixteen digits with the top bit set parse as a `UInt` that does not
      fit in an `Int`, and `Int(hex)` traps: `"#8000000000000000"` is one. */
  lemma LongHexTraps()
    ensures ColorFromString("#" + HexBytes([0x80, 0, 0, 0, 0, 0, 0, 0])) == Trap
  {
    var bs: seq<byte> := [0x80, 0, 0, 0, 0, 0, 0, 0];
    var digits := HexBytes(bs);
    SanitizedHash(digits);
    DigitsOfBytes(bs);
    LongValue();
    ParseDigits(digits, BytesValue(bs));
  }

  /** The bytes `80 00 00 00 00 00 00 00` are worth 2^63. */
  lemma LongValue()
    ensures BytesValue([0x80, 0, 0, 0, 0, 0, 0, 0]) == 0x8000_0000_0000_0000
  {
    assert BytesValue([0x80]) == 0x80;
    assert [0x80, 0][..1] == [0x80];
    assert BytesValue([0x80, 0]) == 0x8000;
    assert [0x80, 0, 0][..2] == [0x80, 0];
    assert BytesValue([0x80, 0, 0]) == 0x800000;
    assert [0x80, 0, 0, 0][..3] == [0x80, 0, 0];
    assert BytesValue([0x80, 0, 0, 0]) == 0x80000000;
    assert [0x80, 0, 0, 0, 0][..4] == [0x80, 0, 0, 0];
    assert BytesValue([0x80, 0, 0, 0, 0]) == 0x8000000000;
    assert [0x80, 0, 0, 0, 0, 0][..5] == [0x80, 0, 0, 0, 0];
    assert BytesValue([0x80, 0, 0, 0, 0, 0]) == 0x800000000000;
    assert [0x80, 0, 0, 0, 0, 0, 0][..6] == [0x80, 0, 0, 0, 0, 0];
    assert BytesValue([0x80, 0, 0, 0, 0, 0, 0]) == 0x80000000000000;
    assert [0x80, 0, 0, 0, 0, 0, 0, 0][..7] == [0x80, 0, 0, 0, 0, 0, 0];
  }
}
