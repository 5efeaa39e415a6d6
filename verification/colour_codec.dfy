/**
 The colour codec of the gradient background (final-gradient.js):
 - `hexToVec3` unpacks a packed 0xRRGGBB integer into three channels scaled by 1/255;
 - the GUI formatter `vec3ToHex` prints a normalised colour as `#rrggbb`;
 - the GUI parser `updateColor` reads such a string back into normalised channels.
 JavaScript's 32-bit integer operators, `Math.round`, `Number.prototype.toString(16)`,
 `String.prototype.padStart`, `String.prototype.slice` and `parseInt(_, 16)` are written out.
 */
module ColourCodec {
  import opened Wrappers

  type Byte = n: int | 0 <= n < 256

  /** Three integer channels, as extracted from a packed colour. */
  datatype Channels = Channels(r: Byte, g: Byte, b: Byte)

  /** A normalised colour: the shader's `vec3` and the `[r, g, b]` arrays of the options. */
  datatype Rgb = Rgb(r: real, g: real, b: real)

  predicate InUnit(x: real) {
    0.0 <= x <= 1.0
  }

  predicate InUnitCube(c: Rgb) {
    InUnit(c.r) && InUnit(c.g) && InUnit(c.b)
  }

  const TwoTo24: int := 0x100_0000
  const TwoTo32: int := 0x1_0000_0000

  // ---------------------------------------------------------------------------
  // hexToVec3
  // ---------------------------------------------------------------------------

  /** ECMAScript ToInt32 on an integral number: wrap into the signed 32-bit range. */
  function ToInt32(x: int): (r: int)
    ensures -0x8000_0000 <= r < 0x8000_0000
    ensures (x - r) % TwoTo32 == 0
  {
    (x + 0x8000_0000) % TwoTo32 - 0x8000_0000
  }

  /** `x >> s` on a 32-bit signed value: an arithmetic shift, i.e. division rounding down. */
  function ShiftRight(x: int, s: nat): int {
    x / Pow2(s)
  }

  function Pow2(n: nat): (p: nat)
    ensures p >= 1
  {
    if n == 0 then 1 else 2 * Pow2(n - 1)
  }

  /** `x & 255` on a 32-bit two's-complement value keeps the low eight bits. */
  function LowByte(x: int): Byte {
    x % 256
  }

  /** `(x >> 16) & 255`, `(x >> 8) & 255` and `x & 255` of a 32-bit value. */
  function SplitBytes(x: int): Channels {
    Channels(LowByte(ShiftRight(x, 16)), LowByte(ShiftRight(x, 8)), LowByte(x))
  }

  /** The integer part of `hexToVec3`: recombining its channels gives the argument modulo
      2^24, for every integer, including negative ones and ones wider than 32 bits. */
  function HexToChannels(hex: int): (c: Channels)
    ensures Packed(c) == hex % TwoTo24
  {
    SplitBytesPacks(hex);
    SplitBytes(ToInt32(hex))
  }

  /** Packs three channels back into one 24-bit integer, `r * 65536 + g * 256 + b`. */
  function Packed(c: Channels): (n: int)
    ensures 0 <= n < TwoTo24
  {
    c.r * 65536 + c.g * 256 + c.b
  }

  /** The `/ 255` scaling of one channel. */
  function ToUnit(n: Byte): (x: real)
    ensures InUnit(x)
    ensures x == 0.0 <==> n == 0
    ensures x == 1.0 <==> n == 255
  {
    n as real / 255.0
  }

  function ChannelsToRgb(c: Channels): (v: Rgb)
    ensures InUnitCube(v)
  {
    Rgb(ToUnit(c.r), ToUnit(c.g), ToUnit(c.b))
  }

  /** `hexToVec3`: every component of the result lies in [0, 1], whatever the integer. */
  function HexToVec3(hex: int): (c: Rgb)
    ensures InUnitCube(c)
  {
    ChannelsToRgb(HexToChannels(hex))
  }

  lemma MulAtLeast(d: int, k: int)
    requires d > 0 && k >= 1
    ensures d * k >= d
    decreases k
  {
    if k > 1 {
      MulAtLeast(d, k - 1);
      assert d * k == d * (k - 1) + d;
    }
  }

  /** Uniqueness of Euclidean division by a positive divisor. */
  lemma DivModUnique(x: int, d: int, q: int, r: int)
    requires d > 0 && 0 <= r < d && x == d * q + r
    ensures x / d == q && x % d == r
  {
    var q', r' := x / d, x % d;
    assert x == d * q' + r';
    if q' > q {
      MulAtLeast(d, q' - q);
    } else if q' < q {
      MulAtLeast(d, q - q');
    }
  }

  lemma SplitBytesPacks(hex: int)
    ensures Packed(SplitBytes(ToInt32(hex))) == hex % TwoTo24
  {
    var x := ToInt32(hex);
    assert Pow2(8) == 256;
    assert Pow2(16) == 65536;
    var c := SplitBytes(x);
    var q := x / 256;
    var q2 := q / 256;
    var q3 := q2 / 256;
    DivModUnique(x, 65536, q2, x - 65536 * q2);
    assert c.b == x % 256 && x == 256 * q + c.b;
    assert c.g == q % 256 && q == 256 * q2 + c.g;
    assert c.r == q2 % 256 && q2 == 256 * q3 + c.r;
    assert x == TwoTo24 * q3 + Packed(c);
    DivModUnique(x, TwoTo24, q3, Packed(c));
    // x and hex differ by a multiple of 2^32, hence of 2^24
    var m := (hex + 0x8000_0000) / TwoTo32;
    assert x == hex - TwoTo32 * m;
    DivModUnique(hex, TwoTo24, hex / TwoTo24, hex % TwoTo24);
    assert x == TwoTo24 * (hex / TwoTo24 - 256 * m) + hex % TwoTo24;
    DivModUnique(x, TwoTo24, hex / TwoTo24 - 256 * m, hex % TwoTo24);
  }

  /** On a 24-bit colour constant, unpacking then packing is the identity. */
  lemma HexToChannelsRoundTrip(hex: int)
    requires 0 <= hex < TwoTo24
    ensures Packed(HexToChannels(hex)) == hex
  {
    DivModUnique(hex, TwoTo24, 0, hex);
  }

  /** Packing three channels then unpacking gives the channels back. */
  lemma {:induction false} PackedUnpacks(c: Channels)
    ensures HexToChannels(Packed(c)) == c
  {
    var n := Packed(c);
    assert ToInt32(n) == n by {
      DivModUnique(n + 0x8000_0000, TwoTo32, 0, n + 0x8000_0000);
    }
    assert Pow2(8) == 256;
    assert Pow2(16) == 65536;
    var lo := c.g * 256 + c.b;
    assert n == 65536 * c.r + lo;
    DivModUnique(n, 65536, c.r, lo);
    DivModUnique(n, 256, c.r * 256 + c.g, c.b);
    DivModUnique(c.r * 256 + c.g, 256, c.r, c.g);
    assert ShiftRight(n, 16) == c.r;
    assert ShiftRight(n, 8) == c.r * 256 + c.g;
  }

  // ---------------------------------------------------------------------------
  // vec3ToHex
  // ---------------------------------------------------------------------------

  /** `Math.round`: the nearest integer, halves rounded toward plus infinity. */
  function Round(x: real): (n: int)
    ensures x - 0.5 < n as real <= x + 0.5
  {
    (x + 0.5).Floor
  }

  /** The lower-case digit `toString(16)` prints for a value below 16. */
  function HexDigit(d: nat): char
    requires d < 16
  {
    if d < 10 then ('0' as int + d) as char else ('a' as int + d - 10) as char
  }

  predicate IsLowerHexDigit(c: char) {
    '0' <= c <= '9' || 'a' <= c <= 'f'
  }

  /** The value of a radix-16 digit as `parseInt` accepts it, in either case. */
  function DigitValue(c: char): Option<nat> {
    if '0' <= c <= '9' then Some(c as int - '0' as int)
    else if 'a' <= c <= 'f' then Some(c as int - 'a' as int + 10)
    else if 'A' <= c <= 'F' then Some(c as int - 'A' as int + 10)
    else None
  }

  predicate AllDigits(s: string) {
    forall i :: 0 <= i < |s| ==> DigitValue(s[i]).Some?
  }

  /** The value of a string of radix-16 digits, most significant first. */
  function HexNumeral(s: string): nat
    requires AllDigits(s)
  {
    if |s| == 0 then 0 else 16 * HexNumeral(s[..|s| - 1]) + DigitValue(s[|s| - 1]).value
  }

  lemma HexDigitValue(d: nat)
    requires d < 16
    ensures IsLowerHexDigit(HexDigit(d))
    ensures DigitValue(HexDigit(d)) == Some(d)
  {
  }

  /** The digits of a natural number in base 16, lower case, without leading zeros:
      reading them back gives the number. */
  function Radix16Digits(n: nat): (s: string)
    ensures 1 <= |s|
    ensures s[0] == '0' <==> n == 0
    ensures forall i :: 0 <= i < |s| ==> IsLowerHexDigit(s[i])
    ensures AllDigits(s) && HexNumeral(s) == n
    ensures n < 16 <==> |s| == 1
  {
    HexDigitValue(n % 16);
    if n < 16 then [HexDigit(n)]
    else
      var s := Radix16Digits(n / 16) + [HexDigit(n % 16)];
      assert s[..|s| - 1] == Radix16Digits(n / 16);
      s
  }

  /** `Number.prototype.toString(16)` on an integer: a minus sign exactly for negative
      numbers, followed by digits that read back as the magnitude. */
  function ToString16(n: int): (s: string)
    ensures |s| >= 1 && (s[0] == '-' <==> n < 0)
    ensures n >= 0 ==> AllDigits(s) && HexNumeral(s) == n
    ensures n < 0 ==> AllDigits(s[1..]) && HexNumeral(s[1..]) == -n
  {
    if n < 0 then "-" + Radix16Digits(-n) else Radix16Digits(n)
  }

  /** `String.prototype.padStart(2, '0')`: left-pads with zeros to length two,
      leaving longer strings alone. */
  function PadStart2(s: string): (r: string)
    ensures |r| == if |s| < 2 then 2 else |s|
    ensures r[|r| - |s|..] == s
    ensures forall i :: 0 <= i < |r| - |s| ==> r[i] == '0'
  {
    if |s| >= 2 then s else seq(2 - |s|, _ => '0') + s
  }

  /** One channel of `vec3ToHex`: at least two characters, and for a channel in [0, 1]
      exactly the two digits of its rounded byte. */
  function FormatChannel(v: real): (s: string)
    ensures |s| >= 2
    ensures InUnit(v) ==> s == TwoDigits(ChannelByte(v))
  {
    var n := Round(v * 255.0);
    FormatByteWhenByte(n);
    PadStart2(ToString16(n))
  }

  lemma FormatByteWhenByte(n: int)
    ensures 0 <= n < 256 ==> PadStart2(ToString16(n)) == TwoDigits(n)
  {
    if 0 <= n < 256 {
      FormatByte(n);
    }
  }

  /** `vec3ToHex`. */
  function Vec3ToHex(c: Rgb): (s: string)
    ensures |s| >= 7 && s[0] == '#'
  {
    "#" + FormatChannel(c.r) + FormatChannel(c.g) + FormatChannel(c.b)
  }

  /** The two-digit form of a byte. */
  function TwoDigits(n: Byte): string {
    [HexDigit(n / 16), HexDigit(n % 16)]
  }

  /** A channel in [0, 1] rounds to a byte. */
  lemma RoundUnitIsByte(v: real)
    requires InUnit(v)
    ensures 0 <= Round(v * 255.0) < 256
  {
  }

  /** A byte prints as exactly two lower-case digits, zero-padded. */
  lemma {:induction false} FormatByte(n: Byte)
    ensures PadStart2(ToString16(n)) == TwoDigits(n)
  {
    if n < 16 {
      assert ToString16(n) == [HexDigit(n)];
    } else {
      var s := ToString16(n);
      assert s == Radix16Digits(n / 16) + [HexDigit(n % 16)];
      assert Radix16Digits(n / 16) == [HexDigit(n / 16)];
    }
  }

  /** The byte a channel in [0, 1] is printed as. */
  function ChannelByte(v: real): Byte
    requires InUnit(v)
  {
    RoundUnitIsByte(v);
    Round(v * 255.0)
  }


  /** For channels in [0, 1], `vec3ToHex` gives `#` followed by exactly six lower-case hex
      digits, two per channel, each pair reading back as that channel's rounded byte. */
  lemma Vec3ToHexShape(c: Rgb)
    requires InUnitCube(c)
    ensures var s := Vec3ToHex(c);
      && |s| == 7 && s[0] == '#'
      && (forall i :: 1 <= i < 7 ==> IsLowerHexDigit(s[i]))
      && s[1..3] == TwoDigits(ChannelByte(c.r))
      && s[3..5] == TwoDigits(ChannelByte(c.g))
      && s[5..7] == TwoDigits(ChannelByte(c.b))
  {
    Vec3ToHexOfRounded(c);
    var ch := RoundedChannels(c);
    TwoDigitsLower(ch.r);
    TwoDigitsLower(ch.g);
    TwoDigitsLower(ch.b);
    HashPairs(Vec3ToHex(c), TwoDigits(ch.r), TwoDigits(ch.g), TwoDigits(ch.b));
  }

  /** The layout of `#` followed by three two-character pairs. */
  lemma HashPairs(s: string, x: string, y: string, z: string)
    requires s == ['#'] + x + y + z && |x| == 2 && |y| == 2 && |z| == 2
    requires IsLowerHexDigit(x[0]) && IsLowerHexDigit(x[1]) && IsLowerHexDigit(y[0])
    requires IsLowerHexDigit(y[1]) && IsLowerHexDigit(z[0]) && IsLowerHexDigit(z[1])
    ensures |s| == 7 && s[0] == '#' && (forall i :: 1 <= i < 7 ==> IsLowerHexDigit(s[i]))
    ensures s[1..3] == x && s[3..5] == y && s[5..7] == z && s[1..] == x + y + z
  {
    assert s[1..3] == x && s[3..5] == y && s[5..7] == z;
  }

  lemma TwoDigitsLower(n: Byte)
    ensures IsLowerHexDigit(TwoDigits(n)[0]) && IsLowerHexDigit(TwoDigits(n)[1])
  {
    HexDigitValue(n / 16);
    HexDigitValue(n % 16);
  }

  // ---------------------------------------------------------------------------
  // updateColor
  // ---------------------------------------------------------------------------

  /** The characters ECMAScript strips before a numeral: WhiteSpace and LineTerminator. */
  predicate IsJsWhiteSpace(c: char) {
    var n := c as int;
    || n == 0x09 || n == 0x0A || n == 0x0B || n == 0x0C || n == 0x0D
    || n == 0x20 || n == 0xA0 || n == 0x1680 || (0x2000 <= n <= 0x200A)
    || n == 0x2028 || n == 0x2029 || n == 0x202F || n == 0x205F || n == 0x3000 || n == 0xFEFF
  }

  function TrimStart(s: string): (r: string)
    ensures |r| <= |s| && r == s[|s| - |r|..]
    ensures |r| == 0 || !IsJsWhiteSpace(r[0])
  {
    if |s| > 0 && IsJsWhiteSpace(s[0]) then TrimStart(s[1..]) else s
  }

  /** Length of the longest prefix made of radix-16 digits. */
  function HexPrefixLength(s: string): (n: nat)
    ensures n <= |s|
    ensures AllDigits(s[..n])
    ensures n < |s| ==> DigitValue(s[n]).None?
  {
    if |s| > 0 && DigitValue(s[0]).Some? then
      var n := 1 + HexPrefixLength(s[1..]);
      assert s[..n] == [s[0]] + s[1..][..n - 1];
      n
    else 0
  }

  /** The string after one leading sign, if any. */
  function Unsigned(t: string): (u: string)
    ensures |u| <= |t|
  {
    if |t| > 0 && (t[0] == '-' || t[0] == '+') then t[1..] else t
  }

  /** The string after a `0x`/`0X` prefix, if any. */
  function StripHexPrefix(u: string): (b: string)
    ensures |b| <= |u|
  {
    if |u| >= 2 && u[0] == '0' && (u[1] == 'x' || u[1] == 'X') then u[2..] else u
  }

  /** The value of the longest leading run of digits; `None` when there is none. */
  function LeadingNumeral(b: string): (v: Option<nat>)
    ensures v.None? <==> |b| == 0 || DigitValue(b[0]).None?
  {
    var n := HexPrefixLength(b);
    if n == 0 then None else Some(HexNumeral(b[..n]))
  }

  /** `parseInt(s, 16)`, with `None` standing for `NaN`: leading white space is skipped,
      one sign is read, a `0x`/`0X` prefix is dropped, and the longest run of digits that
      follows is the numeral; no digit at all gives `NaN`. */
  function ParseInt16(s: string): (v: Option<int>)
    ensures |s| == 0 ==> v.None?
    ensures v.Some? && v.value < 0 ==> |TrimStart(s)| > 0 && TrimStart(s)[0] == '-'
    ensures |s| <= 2 && v.Some? ==> -15 <= v.value <= 255
  {
    ShortNumeral(s);
    var t := TrimStart(s);
    var v := LeadingNumeral(StripHexPrefix(Unsigned(t)));
    if v.None? then None
    else if |t| > 0 && t[0] == '-' then Some(0 - v.value)
    else Some(v.value)
  }

  /** At most two characters leave room for one sign and one digit, or two digits. */
  lemma ShortNumeral(s: string)
    ensures var t := TrimStart(s); var v := LeadingNumeral(StripHexPrefix(Unsigned(t)));
      && (|s| <= 2 && v.Some? ==> v.value <= 255)
      && (|s| <= 2 && v.Some? && |t| > 0 && t[0] == '-' ==> v.value <= 15)
  {
    if |s| <= 2 {
      var t := TrimStart(s);
      var u := Unsigned(t);
      var b := StripHexPrefix(u);
      var n := HexPrefixLength(b);
      if |t| > 0 && t[0] == '-' {
        assert |u| == |t| - 1;
      }
      if n > 0 {
        NumeralBelow(b[..n]);
      }
    }
  }

  /** One digit is below 16 and two digits are below 256. */
  lemma NumeralBelow(s: string)
    requires AllDigits(s) && |s| <= 2
    ensures HexNumeral(s) < (if |s| == 2 then 256 else 16)
  {
    if |s| == 2 {
      assert HexNumeral(s[..1]) < 16 by {
        assert s[..1][..0] == [];
      }
    } else if |s| == 1 {
      assert s[..0] == [];
    }
  }

  /** `String.prototype.slice(start, end)` for non-negative bounds, which are clamped to the
      string's length: an end past the string stops at its end, and a start at or past it
      gives the empty string. */
  function Slice(s: string, start: nat, end: nat): (r: string)
    ensures |r| <= |s|
    ensures |r| <= if start <= end then end - start else 0
    ensures start <= end <= |s| ==> r == s[start..end]
    ensures start <= |s| <= end ==> r == s[start..]
    ensures start >= |s| ==> r == []
  {
    var from := if start < |s| then start else |s|;
    var to := if end < |s| then end else |s|;
    if from < to then s[from..to] else []
  }

  /** The three `parseInt` results `updateColor` computes; `None` stands for `NaN`. */
  datatype Numerals = Numerals(r: Option<int>, g: Option<int>, b: Option<int>)

  /** The colour `updateColor` stores: each numeral over 255, `NaN` staying `NaN`. */
  datatype ParsedColour = ParsedColour(r: Option<real>, g: Option<real>, b: Option<real>)

  /** Characters 1-2, 3-4 and 5-6 read as radix-16 numbers. */
  function ReadNumerals(hexValue: string): Numerals {
    Numerals(
      ParseInt16(Slice(hexValue, 1, 3)),
      ParseInt16(Slice(hexValue, 3, 5)),
      ParseInt16(Slice(hexValue, 5, 7)))
  }

  function Scale(n: Option<int>): (v: Option<real>)
    ensures v.Some? <==> n.Some?
  {
    if n.None? then None else Some(n.value as real / 255.0)
  }

  function ScaleNumerals(n: Numerals): ParsedColour {
    ParsedColour(Scale(n.r), Scale(n.g), Scale(n.b))
  }

  /** `updateColor`: whatever the string, every channel it stores is `NaN` or lies between
      -15/255 and 1, since a two-character slice holds at most a sign and a digit or two
      digits. */
  function UpdateColor(hexValue: string): (c: ParsedColour)
    ensures c.r.Some? ==> -15.0 / 255.0 <= c.r.value <= 1.0
    ensures c.g.Some? ==> -15.0 / 255.0 <= c.g.value <= 1.0
    ensures c.b.Some? ==> -15.0 / 255.0 <= c.b.value <= 1.0
  {
    ScaleNumerals(ReadNumerals(hexValue))
  }

  /** A colour with every channel present. */
  function AsParsed(c: Rgb): ParsedColour {
    ParsedColour(Some(c.r), Some(c.g), Some(c.b))
  }

  /** A digit is neither white space nor a sign. */
  lemma DigitIsPlain(c: char)
    requires DigitValue(c).Some?
    ensures !IsJsWhiteSpace(c) && c != '-' && c != '+' && c != 'x' && c != 'X'
  {
  }

  lemma {:induction false} HexPrefixOfDigits(s: string)
    requires AllDigits(s)
    ensures HexPrefixLength(s) == |s|
    decreases |s|
  {
    if |s| > 0 {
      HexPrefixOfDigits(s[1..]);
    }
  }

  /** A run of digits passes the white-space, sign and prefix stages unchanged. */
  lemma DigitsPassPrefixStages(s: string)
    requires |s| > 0 && AllDigits(s)
    ensures TrimStart(s) == s && Unsigned(s) == s && StripHexPrefix(s) == s
  {
    DigitIsPlain(s[0]);
    if |s| >= 2 {
      DigitIsPlain(s[1]);
    }
  }

  lemma LeadingNumeralOfDigits(s: string)
    requires |s| > 0 && AllDigits(s)
    ensures LeadingNumeral(s) == Some(HexNumeral(s))
  {
    HexPrefixOfDigits(s);
    assert s[..|s|] == s;
  }

  /** A non-empty run of digits of either case parses to its value. */
  lemma ParseAllDigits(s: string)
    requires |s| > 0 && AllDigits(s)
    ensures ParseInt16(s) == Some(HexNumeral(s))
  {
    DigitsPassPrefixStages(s);
    LeadingNumeralOfDigits(s);
    DigitIsPlain(s[0]);
  }

  /** `TwoDigits` is read back as the byte it was made from. */
  lemma ParseTwoDigitsOfByte(n: Byte)
    ensures ParseInt16(TwoDigits(n)) == Some(n)
  {
    TwoDigitsValue(n);
    ParseAllDigits(TwoDigits(n));
  }

  /** A seven-character string holding three digit pairs reads back as those bytes. */
  lemma ReadNumeralsOfDigitPairs(s: string, ch: Channels)
    requires |s| == 7
    requires s[1..3] == TwoDigits(ch.r) && s[3..5] == TwoDigits(ch.g) && s[5..7] == TwoDigits(ch.b)
    ensures ReadNumerals(s) == Numerals(Some(ch.r), Some(ch.g), Some(ch.b))
  {
    assert Slice(s, 1, 3) == TwoDigits(ch.r);
    assert Slice(s, 3, 5) == TwoDigits(ch.g);
    assert Slice(s, 5, 7) == TwoDigits(ch.b);
    ParseTwoDigitsOfByte(ch.r);
    ParseTwoDigitsOfByte(ch.g);
    ParseTwoDigitsOfByte(ch.b);
  }

  /** The bytes `vec3ToHex` prints for a colour in the unit cube: `Math.round(v * 255)`. */
  function RoundedChannels(c: Rgb): Channels
    requires InUnitCube(c)
  {
    Channels(ChannelByte(c.r), ChannelByte(c.g), ChannelByte(c.b))
  }

  /** `parseInt` on the digit pairs `vec3ToHex` printed gives back `Math.round(v * 255)`. */
  lemma ReadNumeralsAfterFormat(c: Rgb)
    requires InUnitCube(c)
    ensures var ch := RoundedChannels(c);
      ReadNumerals(Vec3ToHex(c)) == Numerals(Some(ch.r), Some(ch.g), Some(ch.b))
  {
    Vec3ToHexShape(c);
    ReadNumeralsOfDigitPairs(Vec3ToHex(c), RoundedChannels(c));
  }

  lemma ScaleBytes(ch: Channels)
    ensures ScaleNumerals(Numerals(Some(ch.r), Some(ch.g), Some(ch.b))) == AsParsed(ChannelsToRgb(ch))
  {
  }

  lemma UpdateColorOfNumerals(s: string, ch: Channels)
    requires ReadNumerals(s) == Numerals(Some(ch.r), Some(ch.g), Some(ch.b))
    ensures UpdateColor(s) == AsParsed(ChannelsToRgb(ch))
  {
    ScaleBytes(ch);
  }

  /** Parsing what `vec3ToHex` prints gives `Math.round(v * 255) / 255` per channel. */
  lemma UpdateColorAfterFormat(c: Rgb)
    requires InUnitCube(c)
    ensures UpdateColor(Vec3ToHex(c)) == AsParsed(ChannelsToRgb(RoundedChannels(c)))
  {
    ReadNumeralsAfterFormat(c);
    UpdateColorOfNumerals(Vec3ToHex(c), RoundedChannels(c));
  }

  /** A byte survives scaling to [0, 1] and rounding back. */
  lemma ChannelByteOfUnit(n: Byte)
    ensures ChannelByte(ToUnit(n)) == n
  {
    assert ToUnit(n) * 255.0 == n as real;
  }

  lemma RoundedChannelsOfBytes(ch: Channels)
    ensures RoundedChannels(ChannelsToRgb(ch)) == ch
  {
    ChannelByteOfUnit(ch.r);
    ChannelByteOfUnit(ch.g);
    ChannelByteOfUnit(ch.b);
  }

  /** On byte-valued colours, format then parse is the identity. */
  lemma UpdateColorInvertsOnBytes(ch: Channels)
    ensures UpdateColor(Vec3ToHex(ChannelsToRgb(ch))) == AsParsed(ChannelsToRgb(ch))
  {
    UpdateColorAfterFormat(ChannelsToRgb(ch));
    RoundedChannelsOfBytes(ch);
  }

  /** The colour stored once every channel parsed. */
  function ParsedRgb(p: ParsedColour): Rgb
    requires p.r.Some? && p.g.Some? && p.b.Some?
  {
    Rgb(p.r.value, p.g.value, p.b.value)
  }

  /** The string `vec3ToHex` prints depends only on the rounded bytes. */
  lemma Vec3ToHexOfRounded(c: Rgb)
    requires InUnitCube(c)
    ensures Vec3ToHex(c) == ['#'] + TwoDigits(RoundedChannels(c).r)
      + TwoDigits(RoundedChannels(c).g) + TwoDigits(RoundedChannels(c).b)
  {
  }

  /** Formatting is idempotent through parsing: printing the parsed colour again gives
      the same string. */
  lemma FormatParseFormat(c: Rgb)
    requires InUnitCube(c)
    ensures UpdateColor(Vec3ToHex(c)).r.Some?
    ensures UpdateColor(Vec3ToHex(c)).g.Some?
    ensures UpdateColor(Vec3ToHex(c)).b.Some?
    ensures Vec3ToHex(ParsedRgb(UpdateColor(Vec3ToHex(c)))) == Vec3ToHex(c)
  {
    UpdateColorAfterFormat(c);
    var ch := RoundedChannels(c);
    var c' := ChannelsToRgb(ch);
    assert ParsedRgb(UpdateColor(Vec3ToHex(c))) == c';
    RoundedChannelsOfBytes(ch);
    Vec3ToHexOfRounded(c);
    Vec3ToHexOfRounded(c');
  }

  function Pow16(n: nat): (p: nat)
    ensures p >= 1
  {
    if n == 0 then 1 else 16 * Pow16(n - 1)
  }

  lemma AllDigitsAppend(a: string, b: string)
    requires AllDigits(a) && AllDigits(b)
    ensures AllDigits(a + b)
  {
    var ab := a + b;
    forall i | 0 <= i < |ab|
      ensures DigitValue(ab[i]).Some?
    {
      if i < |a| {
        assert ab[i] == a[i];
      } else {
        assert ab[i] == b[i - |a|];
      }
    }
  }

  lemma ShiftDigitArith(x: int, p: int, y: int, v: int)
    ensures 16 * (x * p + y) + v == x * (16 * p) + (16 * y + v)
  {
  }

  /** Reading a concatenation of digit strings shifts the first part left by the second's length. */
  lemma {:induction false} HexNumeralAppend(a: string, b: string)
    requires AllDigits(a) && AllDigits(b)
    ensures AllDigits(a + b)
    ensures HexNumeral(a + b) == HexNumeral(a) * Pow16(|b|) + HexNumeral(b)
    decreases |b|
  {
    AllDigitsAppend(a, b);
    if |b| == 0 {
      assert a + b == a;
    } else {
      var ab := a + b;
      var b' := b[..|b| - 1];
      var v := DigitValue(b[|b| - 1]).value;
      assert ab[..|ab| - 1] == a + b';
      assert ab[|ab| - 1] == b[|b| - 1];
      HexNumeralAppend(a, b');
      var x, y, p := HexNumeral(a), HexNumeral(b'), Pow16(|b'|);
      calc {
        HexNumeral(ab);
        16 * HexNumeral(a + b') + v;
        16 * (x * p + y) + v;
        { ShiftDigitArith(x, p, y, v); }
        x * (16 * p) + (16 * y + v);
        { assert Pow16(|b|) == 16 * p; }
        x * Pow16(|b|) + HexNumeral(b);
      }
    }
  }

  lemma TwoDigitsValue(n: Byte)
    ensures AllDigits(TwoDigits(n)) && HexNumeral(TwoDigits(n)) == n
  {
    HexDigitValue(n / 16);
    HexDigitValue(n % 16);
    var d := TwoDigits(n);
    assert d[..1] == [HexDigit(n / 16)];
    assert d[..1][..0] == [];
    assert HexNumeral(d[..1]) == n / 16;
    assert d[..|d| - 1] == d[..1];
    assert HexNumeral(d) == 16 * (n / 16) + n % 16;
  }

  /** The six digits of a packed colour, read as one numeral, give the packed value. */
  lemma SixDigitsValue(ch: Channels)
    ensures var d := TwoDigits(ch.r) + TwoDigits(ch.g) + TwoDigits(ch.b);
      AllDigits(d) && HexNumeral(d) == Packed(ch)
  {
    var a, b, c := TwoDigits(ch.r), TwoDigits(ch.g), TwoDigits(ch.b);
    TwoDigitsValue(ch.r);
    TwoDigitsValue(ch.g);
    TwoDigitsValue(ch.b);
    ConcatThreePairs(a, b, c);
    Radix256Arith(ch.r, ch.g, ch.b);
  }

  /** Three two-digit numerals read together as one numeral in base 256. */
  lemma ConcatThreePairs(a: string, b: string, c: string)
    requires |b| == 2 && |c| == 2
    requires AllDigits(a) && AllDigits(b) && AllDigits(c)
    ensures AllDigits(a + b + c)
    ensures HexNumeral(a + b + c) == (HexNumeral(a) * 256 + HexNumeral(b)) * 256 + HexNumeral(c)
  {
    HexNumeralAppend(a, b);
    HexNumeralAppend(a + b, c);
    assert Pow16(2) == 256;
  }

  lemma Radix256Arith(x: int, y: int, z: int)
    ensures (x * 256 + y) * 256 + z == x * 65536 + y * 256 + z
  {
  }

  /** A byte-valued colour shows in the GUI as the six hex digits of its packed value, and
      the GUI reads that string back as the same colour. */
  lemma ByteColourThroughGui(ch: Channels)
    ensures var s := Vec3ToHex(ChannelsToRgb(ch));
      && |s| == 7 && AllDigits(s[1..]) && HexNumeral(s[1..]) == Packed(ch)
      && UpdateColor(s) == AsParsed(ChannelsToRgb(ch))
  {
    FormattedByteDigits(ch);
    SixDigitsValue(ch);
    UpdateColorInvertsOnBytes(ch);
  }

  /** The digits after '#' of a byte-valued colour are its three channels in two-digit form. */
  lemma FormattedByteDigits(ch: Channels)
    ensures Vec3ToHex(ChannelsToRgb(ch))[1..] == TwoDigits(ch.r) + TwoDigits(ch.g) + TwoDigits(ch.b)
  {
    RoundedChannelsOfBytes(ch);
    DigitsOfRounded(ChannelsToRgb(ch), ch);
  }

  lemma DigitsOfRounded(c: Rgb, ch: Channels)
    requires InUnitCube(c) && RoundedChannels(c) == ch
    ensures Vec3ToHex(c)[1..] == TwoDigits(ch.r) + TwoDigits(ch.g) + TwoDigits(ch.b)
  {
    Vec3ToHexOfRounded(c);
    TailAfterHash(Vec3ToHex(c), TwoDigits(ch.r), TwoDigits(ch.g), TwoDigits(ch.b));
  }

  lemma TailAfterHash(s: string, x: string, y: string, z: string)
    requires s == ['#'] + x + y + z
    ensures s[1..] == x + y + z
  {
    assert s == ['#'] + (x + y + z);
  }

  /** A 24-bit colour constant shows in the GUI as its own six hex digits, and the GUI
      reads that string back as exactly the colour `hexToVec3` produced. */
  lemma HexConstantThroughGui(hex: int)
    requires 0 <= hex < TwoTo24
    ensures var s := Vec3ToHex(HexToVec3(hex));
      && |s| == 7 && AllDigits(s[1..]) && HexNumeral(s[1..]) == hex
      && UpdateColor(s) == AsParsed(HexToVec3(hex))
  {
    ByteColourThroughGui(HexToChannels(hex));
    HexToChannelsRoundTrip(hex);
  }

  /** Strings too short to hold a channel's digits yield `NaN` for that channel: a
      three-digit shorthand such as `#abc` loses its blue channel entirely. */
  lemma ShortInputGivesNaN(s: string)
    requires |s| <= 5
    ensures UpdateColor(s).b.None?
    ensures |s| <= 3 ==> UpdateColor(s).g.None?
    ensures |s| <= 1 ==> UpdateColor(s).r.None?
  {
    ParseEmpty();
    assert Slice(s, 5, 7) == [];
    assert |s| <= 3 ==> Slice(s, 3, 5) == [];
    assert |s| <= 1 ==> Slice(s, 1, 3) == [];
  }

  lemma ParseEmpty()
    ensures ParseInt16([]) == None
  {
    assert TrimStart([]) == [];
  }
}
