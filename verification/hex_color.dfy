/** The integer colour codec of `src/utils/index.ts`: `hexToRgb`,
    `hexToRgba`, `rgbToHex` and `rgbaToHex`, with the two JavaScript
    primitives they rest on, `Number.parseInt(s, 16)` and
    `Number.prototype.toString(16)` padded by `padStart(2, "0")`. */
module HexColor {
  import opened Wrappers
  import opened Chars

  /** A channel as `Number.parseInt` returns it; `None` stands for NaN. */
  type Channel = Option<int>

  datatype Rgb = Rgb(r: Channel, g: Channel, b: Channel)

  datatype Rgba = Rgba(r: Channel, g: Channel, b: Channel, a: Channel)

  // ---------------------------------------------------------------------
  // String primitives
  // ---------------------------------------------------------------------

  /** `s.substring(start, end)` for `start <= end`: both ends are clamped to
      the length of `s`. */
  function Substring(s: string, start: nat, end: nat): (r: string)
    requires start <= end
    ensures end <= |s| ==> r == s[start..end]
    ensures start <= |s| <= end ==> r == s[start..]
    ensures |s| <= start ==> r == ""
  {
    var a := if start <= |s| then start else |s|;
    var b := if end <= |s| then end else |s|;
    s[a..b]
  }

  /** `s` without its leading whitespace. */
  function TrimStart(s: string): (r: string)
    ensures |r| <= |s|
  {
    if |s| > 0 && IsSpace(s[0]) then TrimStart(s[1..]) else s
  }

  /** What `TrimStart` leaves is a suffix of its input. */
  lemma {:induction false} TrimStartSuffix(s: string)
    ensures TrimStart(s) == s[|s| - |TrimStart(s)|..]
  {
    if |s| > 0 && IsSpace(s[0]) {
      TrimStartSuffix(s[1..]);
    }
  }

  /** `TrimStart` removes exactly the leading run of whitespace: everything
      before the suffix it keeps is whitespace, and the suffix does not start
      with whitespace. */
  lemma {:induction false} TrimStartSkipsSpace(s: string)
    ensures TrimStart(s) == s[|s| - |TrimStart(s)|..]
    ensures forall k :: 0 <= k < |s| - |TrimStart(s)| ==> IsSpace(s[k])
    ensures |TrimStart(s)| > 0 ==> !IsSpace(TrimStart(s)[0])
  {
    if |s| > 0 && IsSpace(s[0]) {
      TrimStartSkipsSpace(s[1..]);
      forall k | 0 < k < |s| - |TrimStart(s)|
        ensures IsSpace(s[k])
      {
        assert s[k] == s[1..][k - 1];
      }
    }
  }

  predicate AllHexDigits(s: string) {
    forall i :: 0 <= i < |s| ==> IsHexDigit(s[i])
  }

  /** The longest prefix of `s` made of hexadecimal digits. */
  function HexPrefix(s: string): (r: string)
    ensures |r| <= |s| && r == s[..|r|]
    ensures AllHexDigits(r)
    ensures |r| < |s| ==> !IsHexDigit(s[|r|])
  {
    if |s| > 0 && IsHexDigit(s[0]) then [s[0]] + HexPrefix(s[1..]) else ""
  }

  /** The value of a string of hexadecimal digits, most significant first. */
  function HexDigitsValue(digits: string): nat
    requires AllHexDigits(digits)
  {
    if digits == [] then 0
    else HexDigitsValue(digits[..|digits| - 1]) * 16 + HexValue(digits[|digits| - 1])
  }

  /** `Number.parseInt(s, 16)`: skip leading whitespace, take one sign, drop
      a `0x` or `0X` prefix, then read the longest run of hex digits; NaN
      when that run is empty. */
  function ParseInt16(s: string): Channel {
    var t := TrimStart(s);
    var negative := |t| > 0 && t[0] == '-';
    var unsigned := if |t| > 0 && (t[0] == '-' || t[0] == '+') then t[1..] else t;
    var body :=
      if |unsigned| >= 2 && unsigned[0] == '0' && (unsigned[1] == 'x' || unsigned[1] == 'X')
      then unsigned[2..] else unsigned;
    var digits := HexPrefix(body);
    var magnitude: int := HexDigitsValue(digits);
    if digits == [] then None
    else if negative then Some(-magnitude)
    else Some(magnitude)
  }

  /** `n.toString(16)` for an integer `n >= 0`: lower-case digits, no
      leading zeros. */
  function HexDigits(n: nat): (s: string)
    ensures |s| >= 1
  {
    if n < 16 then [HexChar(n)] else HexDigits(n / 16) + [HexChar(n % 16)]
  }

  /** `n.toString(16)` for any integer `n`. */
  function NumberToHex(n: int): string {
    if n < 0 then "-" + HexDigits(-n) else HexDigits(n)
  }

  /** `s.padStart(2, "0")` */
  function PadStart2(s: string): (r: string)
    ensures |r| == if |s| < 2 then 2 else |s|
    ensures |s| >= 2 ==> r == s
    ensures |s| < 2 ==> r == "00"[|s|..] + s
  {
    if |s| >= 2 then s else if |s| == 1 then "0" + s else "00"
  }

  /** One channel as `rgbToHex` prints it. */
  function ByteHex(n: int): string {
    PadStart2(NumberToHex(n))
  }

  // ---------------------------------------------------------------------
  // The codec
  // ---------------------------------------------------------------------

  /** The input with one leading `#` removed, if there is one. */
  function StripHash(hex: string): string {
    if |hex| > 0 && hex[0] == '#' then hex[1..] else hex
  }

  /** Inputs of length 3 or 4 use one digit per channel. */
  predicate IsShorthand(input: string) {
    |input| == 3 || |input| == 4
  }

  /** The text parsed for channel `i` (0 red, 1 green, 2 blue) of the input
      without `#`: the `i`-th character written twice for the shorthand,
      characters `[2i, 2i+2)` otherwise. */
  function ChannelText(input: string, i: nat): string
    requires i < 3
  {
    if IsShorthand(input) then Substring(input, i, i + 1) + Substring(input, i, i + 1)
    else Substring(input, 2 * i, 2 * i + 2)
  }

  /** The text `hexToRgba` parses for alpha: characters `[6, 8)`. */
  function AlphaText(input: string): string {
    Substring(input, 6, 8)
  }

  /** hexToRgb */
  function HexToRgb(hex: string): Rgb {
    var input := StripHash(hex);
    Rgb(ParseInt16(ChannelText(input, 0)), ParseInt16(ChannelText(input, 1)),
        ParseInt16(ChannelText(input, 2)))
  }

  /** hexToRgba: alpha is parsed only when the input has 4 or 8 digits and
      is 0 otherwise. */
  function HexToRgba(hex: string): Rgba {
    var input := StripHash(hex);
    var a := if |input| == 4 || |input| == 8 then ParseInt16(AlphaText(input)) else Some(0);
    Rgba(ParseInt16(ChannelText(input, 0)), ParseInt16(ChannelText(input, 1)),
         ParseInt16(ChannelText(input, 2)), a)
  }

  /** rgbToHex */
  function RgbToHex(r: int, g: int, b: int): string {
    "#" + ByteHex(r) + ByteHex(g) + ByteHex(b)
  }

  /** rgbaToHex */
  function RgbaToHex(r: int, g: int, b: int, a: int): string {
    "#" + ByteHex(r) + ByteHex(g) + ByteHex(b) + ByteHex(a)
  }

  // ---------------------------------------------------------------------
  // Properties of the primitives
  // ---------------------------------------------------------------------

  predicate IsByte(n: int) {
    0 <= n < 256
  }

  /** `toString(16)` prints lower-case hex digits only. */
  lemma {:induction false} HexDigitsLowerCase(n: nat)
    ensures AllHexDigits(HexDigits(n))
    ensures forall i :: 0 <= i < |HexDigits(n)| ==> !IsUpper(HexDigits(n)[i])
  {
    if n >= 16 {
      HexDigitsLowerCase(n / 16);
    }
  }

  /** Printing a non-negative integer in hex and reading the digits back
      gives the integer. */
  lemma {:induction false} HexDigitsRoundTrip(n: nat)
    ensures AllHexDigits(HexDigits(n)) && HexDigitsValue(HexDigits(n)) == n
  {
    HexDigitsLowerCase(n);
    if n >= 16 {
      HexDigitsRoundTrip(n / 16);
      var s := HexDigits(n);
      assert s[..|s| - 1] == HexDigits(n / 16);
    }
  }

  /** A byte prints as exactly two lower-case digits, high nibble first. */
  lemma ByteHexDigits(n: int)
    requires IsByte(n)
    ensures ByteHex(n) == [HexChar(n / 16), HexChar(n % 16)]
  {
    if n >= 16 {
      assert HexDigits(n / 16) == [HexChar(n / 16)];
    }
  }

  /** Two hex digits parse to their base-16 value. */
  lemma ParseTwoDigits(s: string)
    requires |s| == 2 && IsHexDigit(s[0]) && IsHexDigit(s[1])
    ensures ParseInt16(s) == Some(16 * HexValue(s[0]) + HexValue(s[1]))
  {
    assert TrimStart(s) == s;
    assert s[1..][1..] == "";
    assert HexPrefix(s[1..]) == [s[1]];
    assert HexPrefix(s) == s;
    assert s[..1][..0] == "";
    assert HexDigitsValue(s[..1]) == HexValue(s[0]);
  }

  /** A string with no hex digit in it parses to NaN. */
  lemma ParseNoDigits(s: string)
    requires forall i :: 0 <= i < |s| ==> !IsHexDigit(s[i])
    ensures ParseInt16(s) == None
  {
    TrimStartSuffix(s);
    var t := TrimStart(s);
    assert forall i :: 0 <= i < |t| ==> t[i] == s[|s| - |t| + i];
    assert |t| > 1 ==> t[1..][0] == t[1];
  }

  /** A string made only of hex digits is its own longest hex prefix. */
  lemma HexPrefixAll(digits: string)
    requires AllHexDigits(digits)
    ensures HexPrefix(digits) == digits
  {
  }

  /** A hex digit is neither whitespace, a sign nor the `x` of `0x`. */
  lemma HexDigitNotSign(c: char)
    requires IsHexDigit(c)
    ensures !IsSpace(c) && c != '-' && c != '+' && c != 'x' && c != 'X'
  {
  }

  /** `parseInt` reads all of a string made only of hex digits. */
  lemma ParseAllDigits(digits: string)
    requires digits != [] && AllHexDigits(digits)
    ensures ParseInt16(digits) == Some(HexDigitsValue(digits))
  {
    HexDigitNotSign(digits[0]);
    if |digits| >= 2 {
      HexDigitNotSign(digits[1]);
    }
    assert TrimStart(digits) == digits;
    HexPrefixAll(digits);
  }

  /** After one `-`, `parseInt` reads the hex digits that follow as a
      negative number. */
  lemma ParseAfterMinus(t: string)
    requires |t| >= 2 && t[0] == '-' && AllHexDigits(t[1..])
    ensures ParseInt16(t) == Some(-(HexDigitsValue(t[1..]) as int))
  {
    assert TrimStart(t) == t;
    HexPrefixAll(t[1..]);
    assert IsHexDigit(t[1..][0]);
    HexDigitNotSign(t[1]);
    if |t| >= 3 {
      assert IsHexDigit(t[1..][1]);
      HexDigitNotSign(t[2]);
    }
  }

  /** `parseInt(n.toString(16), 16)` gives back every integer `n`. */
  lemma NumberRoundTrip(n: int)
    ensures ParseInt16(NumberToHex(n)) == Some(n)
  {
    if n < 0 {
      HexDigitsRoundTrip(-n);
      var t := "-" + HexDigits(-n);
      assert t[1..] == HexDigits(-n);
      ParseAfterMinus(t);
    } else {
      HexDigitsRoundTrip(n);
      ParseAllDigits(HexDigits(n));
    }
  }

  /** The two characters of a printed byte parse back to the byte. */
  lemma ByteRoundTrip(n: int)
    requires IsByte(n)
    ensures ParseInt16(ByteHex(n)) == Some(n)
  {
    ByteHexDigits(n);
    ParseTwoDigits(ByteHex(n));
  }

  // ---------------------------------------------------------------------
  // Properties of the codec
  // ---------------------------------------------------------------------

  /** For byte channels `rgbToHex` writes `#` and six lower-case digits. */
  lemma RgbToHexFormat(r: int, g: int, b: int)
    requires IsByte(r) && IsByte(g) && IsByte(b)
    ensures RgbToHex(r, g, b)
            == ['#', HexChar(r / 16), HexChar(r % 16), HexChar(g / 16), HexChar(g % 16),
                HexChar(b / 16), HexChar(b % 16)]
  {
    ByteHexDigits(r);
    ByteHexDigits(g);
    ByteHexDigits(b);
  }

  /** For byte channels `rgbaToHex` writes `#` and eight lower-case digits. */
  lemma RgbaToHexFormat(r: int, g: int, b: int, a: int)
    requires IsByte(r) && IsByte(g) && IsByte(b) && IsByte(a)
    ensures RgbaToHex(r, g, b, a)
            == ['#', HexChar(r / 16), HexChar(r % 16), HexChar(g / 16), HexChar(g % 16),
                HexChar(b / 16), HexChar(b % 16), HexChar(a / 16), HexChar(a % 16)]
  {
    ByteHexDigits(r);
    ByteHexDigits(g);
    ByteHexDigits(b);
    ByteHexDigits(a);
  }

  /** `hexToRgb(rgbToHex(r, g, b))` gives the channels back. */
  lemma RgbRoundTrip(r: int, g: int, b: int)
    requires IsByte(r) && IsByte(g) && IsByte(b)
    ensures HexToRgb(RgbToHex(r, g, b)) == Rgb(Some(r), Some(g), Some(b))
  {
    ByteHexDigits(r);
    ByteHexDigits(g);
    ByteHexDigits(b);
    var input := StripHash(RgbToHex(r, g, b));
    assert input == ByteHex(r) + ByteHex(g) + ByteHex(b);
    assert ChannelText(input, 0) == ByteHex(r);
    assert ChannelText(input, 1) == ByteHex(g);
    assert ChannelText(input, 2) == ByteHex(b);
    ByteRoundTrip(r);
    ByteRoundTrip(g);
    ByteRoundTrip(b);
  }

  /** `hexToRgba(rgbaToHex(r, g, b, a))` gives the channels back. */
  lemma RgbaRoundTrip(r: int, g: int, b: int, a: int)
    requires IsByte(r) && IsByte(g) && IsByte(b) && IsByte(a)
    ensures HexToRgba(RgbaToHex(r, g, b, a)) == Rgba(Some(r), Some(g), Some(b), Some(a))
  {
    ByteHexDigits(r);
    ByteHexDigits(g);
    ByteHexDigits(b);
    ByteHexDigits(a);
    var input := StripHash(RgbaToHex(r, g, b, a));
    assert input == ByteHex(r) + ByteHex(g) + ByteHex(b) + ByteHex(a);
    assert ChannelText(input, 0) == ByteHex(r);
    assert ChannelText(input, 1) == ByteHex(g);
    assert ChannelText(input, 2) == ByteHex(b);
    assert AlphaText(input) == ByteHex(a);
    ByteRoundTrip(r);
    ByteRoundTrip(g);
    ByteRoundTrip(b);
    ByteRoundTrip(a);
  }

  /** Two hex digits, read as a byte and printed again, come back in lower
      case. */
  lemma PairRoundTrip(pair: string)
    requires |pair| == 2 && IsHexDigit(pair[0]) && IsHexDigit(pair[1])
    ensures ParseInt16(pair).Some? && IsByte(ParseInt16(pair).value)
    ensures ByteHex(ParseInt16(pair).value) == [LowerHex(pair[0]), LowerHex(pair[1])]
  {
    ParseTwoDigits(pair);
    var n := 16 * HexValue(pair[0]) + HexValue(pair[1]);
    assert n / 16 == HexValue(pair[0]) && n % 16 == HexValue(pair[1]);
    ByteHexDigits(n);
  }

  /** Outside the shorthand channel `i` reads characters `2i` and `2i+1`. */
  lemma LongChannel(input: string, i: nat)
    requires i < 3 && 2 * i + 2 <= |input| && !IsShorthand(input)
    ensures ChannelText(input, i) == [input[2 * i], input[2 * i + 1]]
  {
  }

  /** Channel `i` of a six- or eight-digit input, printed again. */
  lemma LongChannelRoundTrip(input: string, i: nat)
    requires i < 3 && (|input| == 6 || |input| == 8) && AllHexDigits(input)
    ensures ParseInt16(ChannelText(input, i)).Some?
    ensures IsByte(ParseInt16(ChannelText(input, i)).value)
    ensures ByteHex(ParseInt16(ChannelText(input, i)).value)
            == [LowerHex(input[2 * i]), LowerHex(input[2 * i + 1])]
  {
    LongChannel(input, i);
    PairRoundTrip(ChannelText(input, i));
  }

  /** The other way round: a six-digit colour, with or without `#`, comes
      back from `rgbToHex` as `#` and its digit pairs in lower case. */
  lemma HexRoundTrip(hex: string)
    requires |StripHash(hex)| == 6 && AllHexDigits(StripHash(hex))
    ensures HexToRgb(hex).r.Some? && HexToRgb(hex).g.Some? && HexToRgb(hex).b.Some?
    ensures IsByte(HexToRgb(hex).r.value) && IsByte(HexToRgb(hex).g.value) && IsByte(HexToRgb(hex).b.value)
    ensures var d := StripHash(hex);
            RgbToHex(HexToRgb(hex).r.value, HexToRgb(hex).g.value, HexToRgb(hex).b.value)
            == "#" + [LowerHex(d[0]), LowerHex(d[1])] + [LowerHex(d[2]), LowerHex(d[3])]
                   + [LowerHex(d[4]), LowerHex(d[5])]
  {
    var input := StripHash(hex);
    LongChannelRoundTrip(input, 0);
    LongChannelRoundTrip(input, 1);
    LongChannelRoundTrip(input, 2);
  }

  /** The alpha pair of an eight-digit input, printed again. */
  lemma AlphaRoundTrip(input: string)
    requires |input| == 8 && AllHexDigits(input)
    ensures ParseInt16(AlphaText(input)).Some?
    ensures IsByte(ParseInt16(AlphaText(input)).value)
    ensures ByteHex(ParseInt16(AlphaText(input)).value) == [LowerHex(input[6]), LowerHex(input[7])]
  {
    assert AlphaText(input) == [input[6], input[7]];
    PairRoundTrip(AlphaText(input));
  }

  /** An eight-digit colour comes back from `rgbaToHex` in lower case. */
  lemma HexaRoundTrip(hex: string)
    requires |StripHash(hex)| == 8 && AllHexDigits(StripHash(hex))
    ensures HexToRgba(hex).r.Some? && HexToRgba(hex).g.Some?
    ensures HexToRgba(hex).b.Some? && HexToRgba(hex).a.Some?
    ensures IsByte(HexToRgba(hex).r.value) && IsByte(HexToRgba(hex).g.value)
    ensures IsByte(HexToRgba(hex).b.value) && IsByte(HexToRgba(hex).a.value)
    ensures var d := StripHash(hex);
            RgbaToHex(HexToRgba(hex).r.value, HexToRgba(hex).g.value,
                      HexToRgba(hex).b.value, HexToRgba(hex).a.value)
            == "#" + [LowerHex(d[0]), LowerHex(d[1])] + [LowerHex(d[2]), LowerHex(d[3])]
                   + [LowerHex(d[4]), LowerHex(d[5])] + [LowerHex(d[6]), LowerHex(d[7])]
  {
    var input := StripHash(hex);
    LongChannelRoundTrip(input, 0);
    LongChannelRoundTrip(input, 1);
    LongChannelRoundTrip(input, 2);
    AlphaRoundTrip(input);
  }

  /** In the shorthand channel `i` is its digit written twice. */
  lemma ShorthandChannel(input: string, i: nat)
    requires i < 3 && IsShorthand(input) && IsHexDigit(input[i])
    ensures ParseInt16(ChannelText(input, i)) == Some(17 * HexValue(input[i]))
  {
    assert ChannelText(input, i) == [input[i], input[i]];
    ParseTwoDigits(ChannelText(input, i));
  }

  /** In the shorthand each of the first three digits is doubled, so the
      channel is 17 times the digit. */
  lemma ShorthandChannels(hex: string)
    requires IsShorthand(StripHash(hex))
    requires IsHexDigit(StripHash(hex)[0]) && IsHexDigit(StripHash(hex)[1]) && IsHexDigit(StripHash(hex)[2])
    ensures var d := StripHash(hex);
            HexToRgb(hex) == Rgb(Some(17 * HexValue(d[0])), Some(17 * HexValue(d[1])),
                                 Some(17 * HexValue(d[2])))
  {
    ShorthandChannel(StripHash(hex), 0);
    ShorthandChannel(StripHash(hex), 1);
    ShorthandChannel(StripHash(hex), 2);
  }

  /** Outside the shorthand a channel whose two characters hold no hex digit
      is NaN. */
  lemma NonHexPairIsNaN(hex: string, i: nat)
    requires i < 3
    requires !IsShorthand(StripHash(hex))
    requires forall k :: 2 * i <= k < 2 * i + 2 && k < |StripHash(hex)| ==> !IsHexDigit(StripHash(hex)[k])
    ensures i == 0 ==> HexToRgb(hex).r == None
    ensures i == 1 ==> HexToRgb(hex).g == None
    ensures i == 2 ==> HexToRgb(hex).b == None
  {
    ParseNoDigits(ChannelText(StripHash(hex), i));
  }

  /** `hexToRgba` reads red, green and blue exactly as `hexToRgb` does. Its
      alpha is 0 unless the input has 4 or 8 digits: a six-digit colour is
      transparent, and the four-digit shorthand reads alpha from an empty
      substring, which is NaN. */
  lemma HexToRgbaAlpha(hex: string)
    ensures var c := HexToRgba(hex);
            Rgb(c.r, c.g, c.b) == HexToRgb(hex)
    ensures |StripHash(hex)| != 4 && |StripHash(hex)| != 8 ==> HexToRgba(hex).a == Some(0)
    ensures |StripHash(hex)| == 4 ==> HexToRgba(hex).a == None
  {
    if |StripHash(hex)| == 4 {
      ParseNoDigits(AlphaText(StripHash(hex)));
    }
  }

  // ---------------------------------------------------------------------
  // The four-digit shorthand's alpha
  // ---------------------------------------------------------------------

  /** `hexToRgba` as its length test evidently means it: the four-digit
      shorthand takes alpha from its fourth digit written twice, like the
      other channels. */
  function HexToRgbaIntended(hex: string): Rgba {
    var input := StripHash(hex);
    var a :=
      if |input| == 4 then ParseInt16(Substring(input, 3, 4) + Substring(input, 3, 4))
      else if |input| == 8 then ParseInt16(AlphaText(input))
      else Some(0);
    Rgba(ParseInt16(ChannelText(input, 0)), ParseInt16(ChannelText(input, 1)),
         ParseInt16(ChannelText(input, 2)), a)
  }

  /** The fourth digit of the shorthand, written twice, parses to 17 times
      its value. */
  lemma DoubledFourthDigit(input: string)
    requires |input| == 4 && IsHexDigit(input[3])
    ensures ParseInt16(Substring(input, 3, 4) + Substring(input, 3, 4)) == Some(17 * HexValue(input[3]))
  {
    assert Substring(input, 3, 4) + Substring(input, 3, 4) == [input[3], input[3]];
    ParseTwoDigits([input[3], input[3]]);
  }

  /** The intended reading differs from `hexToRgba` only in the alpha of the
      four-digit shorthand, which is 17 times the fourth digit. */
  lemma IntendedShorthandAlpha(hex: string)
    ensures var c := HexToRgbaIntended(hex);
            Rgb(c.r, c.g, c.b) == HexToRgb(hex)
    ensures |StripHash(hex)| != 4 ==> HexToRgbaIntended(hex) == HexToRgba(hex)
    ensures |StripHash(hex)| == 4 && IsHexDigit(StripHash(hex)[3])
            ==> HexToRgbaIntended(hex).a == Some(17 * HexValue(StripHash(hex)[3]))
  {
    var input := StripHash(hex);
    if |input| == 4 && IsHexDigit(input[3]) {
      DoubledFourthDigit(input);
    }
  }

  /** On "#abcd" the alpha `hexToRgba` returns is NaN where 0xdd was meant. */
  lemma ShorthandAlphaExample()
    ensures HexToRgba("#abcd").a == None
    ensures HexToRgbaIntended("#abcd").a == Some(0xdd)
  {
    HexToRgbaAlpha("#abcd");
    IntendedShorthandAlpha("#abcd");
    assert StripHash("#abcd") == "abcd";
  }
}
