/** The PHP string functions the core relies on, on byte-valued characters.

    `decbin`, `bindec`, `str_pad`, `str_repeat`, `str_split` (PHP 8.2 and later, where
    the empty string splits into no chunks), `strpos` with a one-character needle, and
    the decimal form of a non-negative integer (`(string) $n`). Binary digit strings
    ('0'/'1' characters) are tied to the bit strings of module Bits by `BitChars`. */
module PhpStrings {
  import opened Bits
  import opened Results

  /** `str_repeat($c, $n)`. */
  function Repeat(c: char, n: nat): (s: string)
    ensures |s| == n && forall i :: 0 <= i < n ==> s[i] == c
  {
    seq(n, _ => c)
  }

  /** `str_pad($s, $length, $pad, STR_PAD_LEFT)` with a one-character pad. */
  function PadLeft(s: string, length: nat, pad: char): (r: string)
    ensures |r| == if |s| < length then length else |s|
    ensures r[|r| - |s|..] == s
    ensures forall i :: 0 <= i < |r| - |s| ==> r[i] == pad
  {
    if |s| < length then Repeat(pad, length - |s|) + s else s
  }

  /** `str_pad($s, $length, $pad)`: padding on the right, the default. */
  function PadRight(s: string, length: nat, pad: char): (r: string)
    ensures |r| == if |s| < length then length else |s|
    ensures r[..|s|] == s
    ensures forall i :: |s| <= i < |r| ==> r[i] == pad
  {
    if |s| < length then s + Repeat(pad, length - |s|) else s
  }

  // ---------------------------------------------------------------------------
  // Binary digit strings

  /** The '0'/'1' characters of a bit string. */
  function BitChars(bits: seq<bit>): (s: string)
    ensures |s| == |bits|
  {
    seq(|bits|, i requires 0 <= i < |bits| => if bits[i] == 0 then '0' else '1')
  }

  /** `decbin($v)`: the binary digits of `v` without leading zeros, "0" for zero. */
  function DecBin(v: nat): (s: string)
    ensures |s| >= 1
    ensures s[0] == '1' || s == "0"
  {
    if v < 2 then (if v == 0 then "0" else "1")
    else DecBin(v / 2) + (if v % 2 == 0 then "0" else "1")
  }

  /** `bindec($s)`: the value of the binary digits of `s`; PHP skips every other
      character. */
  function Bindec(s: string): nat
  {
    if s == [] then 0
    else
      var rest := Bindec(s[..|s| - 1]);
      match s[|s| - 1]
      case '0' => 2 * rest
      case '1' => 2 * rest + 1
      case _ => rest
  }

  lemma BitCharsAppend(a: seq<bit>, b: seq<bit>)
    ensures BitChars(a + b) == BitChars(a) + BitChars(b)
  {
  }

  lemma BitCharsSlice(bits: seq<bit>, k: nat)
    requires k <= |bits|
    ensures BitChars(bits)[..k] == BitChars(bits[..k])
    ensures BitChars(bits)[k..] == BitChars(bits[k..])
  {
  }

  lemma BitCharsSingle(b: bit)
    ensures BitChars([b]) == [if b == 0 then '0' else '1']
  {
  }

  lemma BitCharsZeros(n: nat)
    ensures BitChars(Zeros(n)) == Repeat('0', n)
  {
  }

  lemma {:induction false} ToBitsOfZero(width: nat)
    ensures ToBits(0, width) == Zeros(width)
  {
    if width > 0 {
      ToBitsOfZero(width - 1);
    }
  }

  lemma PadLeftPush(s: string, c: char, length: nat, pad: char)
    requires |s| <= length
    ensures PadLeft(s + [c], length + 1, pad) == PadLeft(s, length, pad) + [c]
  {
  }

  lemma DecBinPaddedDigit(v: nat, width: nat)
    requires 1 <= width && v < 2
    ensures PadLeft(DecBin(v), width, '0') == BitChars(ToBits(v, width))
  {
    var c := if v == 0 then '0' else '1';
    assert DecBin(v) == [c];
    PadLeftOfDigit(c, width);
    BitCharsOfDigit(v, width);
  }

  /** One digit padded on the left with '0' to `width` characters. */
  lemma PadLeftOfDigit(c: char, width: nat)
    requires 1 <= width
    ensures PadLeft([c], width, '0') == Repeat('0', width - 1) + [c]
  {
    if width == 1 {
      assert Repeat('0', 0) + [c] == [c];
    }
  }

  /** The `width`-bit form of 0 or 1 is `width - 1` zeros, then that digit. */
  lemma BitCharsOfDigit(v: nat, width: nat)
    requires 1 <= width && v < 2
    ensures BitChars(ToBits(v, width)) == Repeat('0', width - 1) + [if v == 0 then '0' else '1']
  {
    var zeros := Zeros(width - 1);
    assert v / 2 == 0 && v % 2 == v;
    assert ToBits(v, width) == ToBits(0, width - 1) + [v];
    ToBitsOfZero(width - 1);
    BitCharsAppend(zeros, [v]);
    BitCharsZeros(width - 1);
    BitCharsSingle(v);
  }

  /** `decbin` padded on the left with '0' to `width` digits is the `width`-bit form. */
  lemma {:induction false} DecBinPadded(v: nat, width: nat)
    requires 1 <= width
    requires v < Pow2(width)
    ensures |DecBin(v)| <= width
    ensures PadLeft(DecBin(v), width, '0') == BitChars(ToBits(v, width))
  {
    if v < 2 {
      DecBinPaddedDigit(v, width);
    } else {
      assert width >= 2;
      var half: nat, low: bit := v / 2, v % 2;
      DecBinPadded(half, width - 1);
      var d := if low == 0 then '0' else '1';
      PadLeftPush(DecBin(half), d, width - 1, '0');
      assert DecBin(v) == DecBin(half) + [d];
      var front := ToBits(half, width - 1);
      assert ToBits(v, width) == front + [low];
      BitCharsAppend(front, [low]);
      BitCharsSingle(low);
      calc {
        PadLeft(DecBin(v), width, '0');
        PadLeft(DecBin(half) + [d], (width - 1) + 1, '0');
        PadLeft(DecBin(half), width - 1, '0') + [d];
        BitChars(front) + BitChars([low]);
        BitChars(ToBits(v, width));
      }
    }
  }

  /** `bindec` reads back the value of a binary digit string. */
  lemma {:induction false} BindecOfBitChars(bits: seq<bit>)
    ensures Bindec(BitChars(bits)) == BitsValue(bits)
  {
    if bits != [] {
      var front := bits[..|bits| - 1];
      BitCharsSlice(bits, |bits| - 1);
      BindecOfBitChars(front);
    }
  }

  lemma PadRightBitChars(bits: seq<bit>, width: nat)
    requires |bits| <= width
    ensures PadRight(BitChars(bits), width, '0') == BitChars(bits + Zeros(width - |bits|))
  {
    BitCharsZeros(width - |bits|);
    BitCharsAppend(bits, Zeros(width - |bits|));
  }

  // ---------------------------------------------------------------------------
  // Splitting and searching

  function Concat(chunks: seq<string>): string
  {
    if chunks == [] then [] else chunks[0] + Concat(chunks[1..])
  }

  /** `str_split($s, $n)` on PHP 8.2 and later: chunks of `n` characters, the last one
      possibly shorter; no chunk at all for the empty string. */
  function StrSplit(s: string, n: nat): (chunks: seq<string>)
    requires n > 0
    ensures Concat(chunks) == s
    ensures forall i :: 0 <= i < |chunks| ==> 0 < |chunks[i]| <= n
    ensures forall i :: 0 <= i < |chunks| - 1 ==> |chunks[i]| == n
    decreases |s|
  {
    if s == [] then []
    else if |s| <= n then [s]
    else [s[..n]] + StrSplit(s[n..], n)
  }

  /** `strpos($s, $c)`: the first position of `c` in `s`, if any. */
  function StrPos(s: string, c: char): (r: Option<nat>)
    ensures r.Some? ==> r.value < |s| && s[r.value] == c && forall j :: 0 <= j < r.value ==> s[j] != c
    ensures r.None? ==> forall j :: 0 <= j < |s| ==> s[j] != c
  {
    if s == [] then None
    else if s[0] == c then Some(0)
    else match StrPos(s[1..], c)
      case None => None
      case Some(k) => Some(k + 1)
  }

  // ---------------------------------------------------------------------------
  // Decimal strings

  function Pow10(n: nat): (r: nat)
    ensures r >= 1
  {
    if n == 0 then 1 else 10 * Pow10(n - 1)
  }

  predicate IsDigit(c: char)
  {
    '0' <= c <= '9'
  }

  predicate AllDigits(s: string)
  {
    forall i :: 0 <= i < |s| ==> IsDigit(s[i])
  }

  /** `(string) $n` for a non-negative integer: decimal digits, no leading zero. */
  function IntToString(n: nat): (s: string)
    ensures |s| >= 1 && AllDigits(s)
    ensures s[0] != '0' || s == "0"
  {
    if n < 10 then [(('0' as int) + n) as char]
    else IntToString(n / 10) + [(('0' as int) + n % 10) as char]
  }

  /** The number a string of decimal digits denotes. */
  function DecimalValue(s: string): nat
    requires AllDigits(s)
  {
    if s == [] then 0 else 10 * DecimalValue(s[..|s| - 1]) + (s[|s| - 1] as int - '0' as int)
  }

  /** The decimal form reads back as the number, and has at most `d` digits when the
      number is below 10^d. */
  lemma {:induction false} IntToStringValue(n: nat, d: nat)
    requires 1 <= d && n < Pow10(d)
    ensures DecimalValue(IntToString(n)) == n
    ensures |IntToString(n)| <= d
  {
    if n >= 10 {
      assert d >= 2;
      IntToStringValue(n / 10, d - 1);
      var s := IntToString(n);
      assert s[..|s| - 1] == IntToString(n / 10);
    }
  }

  /** Leading '0' characters do not change the value. */
  lemma {:induction false} DecimalValuePadLeft(s: string, length: nat)
    requires AllDigits(s)
    ensures AllDigits(PadLeft(s, length, '0'))
    ensures DecimalValue(PadLeft(s, length, '0')) == DecimalValue(s)
    decreases |s|
  {
    var r := PadLeft(s, length, '0');
    if s != [] && |s| < length {
      var front := s[..|s| - 1];
      DecimalValuePadLeft(front, length - 1);
      assert r[..|r| - 1] == PadLeft(front, length - 1, '0');
    } else if s == [] {
      DecimalValueZeros(length);
      assert r == Repeat('0', length);
    }
  }

  lemma {:induction false} DecimalValueZeros(n: nat)
    ensures AllDigits(Repeat('0', n)) && DecimalValue(Repeat('0', n)) == 0
  {
    if n > 0 {
      DecimalValueZeros(n - 1);
      assert Repeat('0', n)[..n - 1] == Repeat('0', n - 1);
    }
  }

  /** `str_pad((string) $n, $d, '0', STR_PAD_LEFT)` for n below 10^d: exactly d decimal
      digits that read back as n. */
  lemma FormatFixedWidth(n: nat, d: nat)
    requires 1 <= d && n < Pow10(d)
    ensures var s := PadLeft(IntToString(n), d, '0');
            |s| == d && AllDigits(s) && DecimalValue(s) == n
  {
    IntToStringValue(n, d);
    DecimalValuePadLeft(IntToString(n), d);
  }

  // ---------------------------------------------------------------------------
  // Case and percent-encoding

  /** `strtoupper($s)`: ASCII letters only, as PHP 8 does regardless of locale. */
  function StrToUpper(s: string): (r: string)
    ensures |r| == |s|
    ensures forall i :: 0 <= i < |s| ==>
              r[i] == if 'a' <= s[i] <= 'z' then (s[i] as int - 32) as char else s[i]
  {
    seq(|s|, i requires 0 <= i < |s| => if 'a' <= s[i] <= 'z' then (s[i] as int - 32) as char else s[i])
  }

  /** A PHP string: every character is one byte. */
  predicate IsByteString(s: string)
  {
    forall i :: 0 <= i < |s| ==> s[i] as int < 256
  }

  /** The characters RFC 3986 section 2.3 calls unreserved. */
  predicate IsUnreserved(c: char)
  {
    'A' <= c <= 'Z' || 'a' <= c <= 'z' || '0' <= c <= '9' || c == '-' || c == '.' || c == '_' || c == '~'
  }

  const HexDigits: string := "0123456789ABCDEF"

  predicate IsHexDigit(c: char)
  {
    '0' <= c <= '9' || 'A' <= c <= 'F'
  }

  function HexValue(c: char): nat
    requires IsHexDigit(c)
  {
    if c <= '9' then c as int - '0' as int else c as int - 'A' as int + 10
  }

  /** One byte as `rawurlencode` writes it: itself when unreserved, otherwise '%' and two
      upper-case hexadecimal digits (RFC 3986 section 2.1). */
  function PercentEncodeChar(c: char): (r: string)
    requires c as int < 256
    ensures forall i :: 0 <= i < |r| ==> IsUnreserved(r[i]) || r[i] == '%'
  {
    if IsUnreserved(c) then [c] else ['%', HexDigits[c as int / 16], HexDigits[c as int % 16]]
  }

  /** `rawurlencode($s)`. */
  function RawUrlEncode(s: string): (r: string)
    requires IsByteString(s)
    ensures forall i :: 0 <= i < |r| ==> IsUnreserved(r[i]) || r[i] == '%'
  {
    if s == [] then [] else PercentEncodeChar(s[0]) + RawUrlEncode(s[1..])
  }

  /** `rawurldecode($s)`: every '%' followed by two hexadecimal digits stands for the byte
      they denote; any other character stands for itself. */
  function PercentDecode(s: string): string
  {
    if s == [] then []
    else if |s| >= 3 && s[0] == '%' && IsHexDigit(s[1]) && IsHexDigit(s[2]) then
      [(16 * HexValue(s[1]) + HexValue(s[2])) as char] + PercentDecode(s[3..])
    else [s[0]] + PercentDecode(s[1..])
  }

  /** Each of the sixteen digits reads back as its position. */
  lemma HexDigitValue(d: int)
    requires 0 <= d < 16
    ensures IsHexDigit(HexDigits[d]) && HexValue(HexDigits[d]) == d
  {
  }

  lemma PercentEncodeCharDecodes(c: char, rest: string)
    requires c as int < 256
    ensures PercentDecode(PercentEncodeChar(c) + rest) == [c] + PercentDecode(rest)
  {
    var e := PercentEncodeChar(c);
    if !IsUnreserved(c) {
      var hi, lo := c as int / 16, c as int % 16;
      HexDigitValue(hi);
      HexDigitValue(lo);
      assert (16 * hi + lo) as char == c;
      assert (e + rest)[3..] == rest;
    } else {
      assert (e + rest)[1..] == rest;
    }
  }

  /** Decoding gives back every byte string `rawurlencode` was given. */
  lemma {:induction false} RawUrlEncodeRoundTrip(s: string)
    requires IsByteString(s)
    ensures PercentDecode(RawUrlEncode(s)) == s
  {
    if s != [] {
      RawUrlEncodeRoundTrip(s[1..]);
      PercentEncodeCharDecodes(s[0], RawUrlEncode(s[1..]));
    }
  }
}
