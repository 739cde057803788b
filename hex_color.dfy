/** The integer part of `UIColor(hexString:)`: trim the string, scan a hex
    integer from its front, and split it into alpha, red, green and blue by
    the trimmed length. */
module HexColor {
  import opened Text

  /** Membership in `CharacterSet.alphanumerics`, restricted here to the
      ASCII letters and digits. */
  function IsAlphanumeric(c: char): (b: bool)
    ensures b <==> '0' <= c <= '9' || 'a' <= Lower(c) <= 'z'
    ensures IsHexDigit(c) ==> b
  {
    'a' <= c <= 'z' || 'A' <= c <= 'Z' || '0' <= c <= '9'
  }

  /** How many characters at the front of `s` are not alphanumeric. */
  function LeadingCount(s: string): (n: nat)
    ensures n <= |s|
    ensures forall k :: 0 <= k < n ==> !IsAlphanumeric(s[k])
    ensures n < |s| ==> IsAlphanumeric(s[n])
    decreases |s|
  {
    if s != [] && !IsAlphanumeric(s[0]) then 1 + LeadingCount(s[1..]) else 0
  }

  /** How many characters at the back of `s` are not alphanumeric. */
  function TrailingCount(s: string): (n: nat)
    ensures n <= |s|
    ensures forall k :: |s| - n <= k < |s| ==> !IsAlphanumeric(s[k])
    ensures n < |s| ==> IsAlphanumeric(s[|s| - 1 - n])
    decreases |s|
  {
    if s != [] && !IsAlphanumeric(s[|s| - 1]) then 1 + TrailingCount(s[..|s| - 1]) else 0
  }

  /** `s.trimmingCharacters(in: CharacterSet.alphanumerics.inverted)`: the
      slice of `s` left after cutting every non-alphanumeric character off
      both ends. Characters inside the slice are kept whatever they are. */
  function Trim(s: string): (r: string)
    ensures |r| <= |s|
    ensures LeadingCount(s) + |r| <= |s| && r == s[LeadingCount(s)..LeadingCount(s) + |r|]
    ensures forall k :: LeadingCount(s) + |r| <= k < |s| ==> !IsAlphanumeric(s[k])
    ensures r != [] ==> IsAlphanumeric(r[0]) && IsAlphanumeric(r[|r| - 1])
  {
    var t := s[LeadingCount(s)..];
    t[..|t| - TrailingCount(t)]
  }

  /** A string of alphanumerics behind one non-alphanumeric marker (such as
      '#') trims to itself without the marker. */
  lemma TrimMarked(m: char, d: string)
    requires !IsAlphanumeric(m)
    requires forall k :: 0 <= k < |d| ==> IsAlphanumeric(d[k])
    ensures Trim([m] + d) == d
  {
    var s := [m] + d;
    assert s[1..] == d;
    assert LeadingCount(s) == 1;
    assert s[LeadingCount(s)..] == d;
    assert TrailingCount(d) == 0;
  }

  predicate IsHexDigit(c: char)
  {
    '0' <= c <= '9' || 'a' <= c <= 'f' || 'A' <= c <= 'F'
  }

  /** The value of one hex digit, in either case. */
  function DigitValue(c: char): (v: nat)
    requires IsHexDigit(c)
    ensures v < 16
  {
    if '0' <= c <= '9' then c as int - '0' as int
    else if 'a' <= c <= 'f' then c as int - 'a' as int + 10
    else c as int - 'A' as int + 10
  }

  /** Whether a character is alphanumeric, whether it is a hex digit, and its
      digit value do not depend on its case. */
  lemma DigitValueIgnoresCase(c: char)
    ensures IsAlphanumeric(Lower(c)) == IsAlphanumeric(c)
    ensures IsHexDigit(Lower(c)) == IsHexDigit(c)
    ensures IsHexDigit(c) ==> DigitValue(Lower(c)) == DigitValue(c)
  {
  }

  /** The lower-case hex digit for a value below 16. */
  function HexDigit(v: nat): (c: char)
    requires v < 16
    ensures IsHexDigit(c) && IsAlphanumeric(c) && DigitValue(c) == v
  {
    if v < 10 then ('0' as int + v) as char else ('a' as int + v - 10) as char
  }

  function Pow16(n: nat): (p: nat)
    ensures p >= 1
  {
    if n == 0 then 1 else 16 * Pow16(n - 1)
  }

  lemma {:induction false} Pow16Monotone(i: nat, j: nat)
    requires i <= j
    ensures Pow16(i) <= Pow16(j)
    decreases j
  {
    if i < j {
      Pow16Monotone(i, j - 1);
    }
  }

  /** The number a string of hex digits spells, most significant first; it
      has at most |ds| digits. */
  function HexValue(ds: string): (v: nat)
    requires forall k :: 0 <= k < |ds| ==> IsHexDigit(ds[k])
    ensures v < Pow16(|ds|)
    decreases |ds|
  {
    if ds == [] then 0
    else HexValue(ds[..|ds| - 1]) * 16 + DigitValue(ds[|ds| - 1])
  }

  /** The length of the longest prefix of `s` made of hex digits. */
  function DigitPrefixLength(s: string): (n: nat)
    ensures n <= |s|
    ensures forall k :: 0 <= k < n ==> IsHexDigit(s[k])
    ensures n < |s| ==> !IsHexDigit(s[n])
    decreases |s|
  {
    if s != [] && IsHexDigit(s[0]) then 1 + DigitPrefixLength(s[1..]) else 0
  }

  /** `Scanner(string: s).scanHexInt64(&int)` starting from `int = 0`: the
      value of the longest hex-digit prefix, 0 when there is none. */
  function ScanHex(s: string): (v: nat)
    ensures v < Pow16(DigitPrefixLength(s))
  {
    HexValue(s[..DigitPrefixLength(s)])
  }

  /** A string made only of hex digits is scanned whole. */
  lemma ScanHexAllDigits(ds: string)
    requires forall k :: 0 <= k < |ds| ==> IsHexDigit(ds[k])
    ensures ScanHex(ds) == HexValue(ds)
  {
    assert DigitPrefixLength(ds) == |ds|;
    assert ds[..|ds|] == ds;
  }

  /** The `(a, r, g, b)` quadruple of `UInt64`s before the division into
      `CGFloat`. */
  datatype Rgba = Rgba(a: nat, r: nat, g: nat, b: nat)

  /** Opaque, and every colour component fits in a byte. */
  predicate IsOpaqueByteColor(c: Rgba)
  {
    c.a == 255 && c.r <= 255 && c.g <= 255 && c.b <= 255
  }

  /** The 12-bit branch, `(255, (int >> 8) * 17, (int >> 4 & 0xF) * 17,
      (int & 0xF) * 17)`. On a non-negative integer `x >> k` is `x / 2^k`
      and `x & (2^k - 1)` is `x % 2^k`. */
  function TwelveBit(n: nat): (c: Rgba)
    ensures c.a == 255
    ensures n < 4096 ==> IsOpaqueByteColor(c)
  {
    Rgba(255, (n / 0x100) * 17, (n / 0x10 % 0x10) * 17, (n % 0x10) * 17)
  }

  /** The 24-bit branch, `(255, int >> 16, int >> 8 & 0xFF, int & 0xFF)`. */
  function TwentyFourBit(n: nat): (c: Rgba)
    ensures c.a == 255
    ensures n < 16777216 ==> IsOpaqueByteColor(c)
  {
    Rgba(255, n / 0x10000, n / 0x100 % 0x100, n % 0x100)
  }

  /** Three nibbles: each becomes nibble * 17; at most three digits keep every
      component a byte. */
  lemma TwelveBitNibbles(d0: nat, d1: nat, d2: nat)
    requires d0 < 16 && d1 < 16 && d2 < 16
    ensures TwelveBit(d0 * 256 + d1 * 16 + d2) == Rgba(255, d0 * 17, d1 * 17, d2 * 17)
  {
    var n := d0 * 256 + d1 * 16 + d2;
    var hi := d0 * 16 + d1;
    assert n == hi * 16 + d2;
    assert n / 16 == hi && n % 16 == d2;
    assert n / 256 == d0;
    assert hi % 16 == d1;
  }

  /** Three bytes: they come back as red, green and blue. */
  lemma TwentyFourBitBytes(r: nat, g: nat, b: nat)
    requires r < 256 && g < 256 && b < 256
    ensures TwentyFourBit(r * 65536 + g * 256 + b) == Rgba(255, r, g, b)
  {
    var n := r * 65536 + g * 256 + b;
    assert n / 256 == r * 256 + g;
  }

  /** `UIColor(hexString:)` up to the division by 255: length 3 is 12-bit
      RGB with each nibble times 17, length 6 is 24-bit RGB, and any other
      length is opaque black. The scanned value never has more digits than
      the trimmed string, so every component is a byte and the `UInt64`
      arithmetic cannot overflow. */
  function Decode(hexString: string): (c: Rgba)
    ensures IsOpaqueByteColor(c)
    ensures |Trim(hexString)| != 3 && |Trim(hexString)| != 6 ==> c == Rgba(255, 0, 0, 0)
  {
    var hex := Trim(hexString);
    var n := ScanHex(hex);
    Pow16Monotone(DigitPrefixLength(hex), |hex|);
    if |hex| == 3 then
      assert Pow16(3) == 4096;
      TwelveBit(n)
    else if |hex| == 6 then
      assert Pow16(6) == 16777216;
      TwentyFourBit(n)
    else
      Rgba(255, 0, 0, 0)
  }

  /** Reading one more digit multiplies the value so far by 16 and adds it. */
  lemma HexValuePrefix(ds: string, k: nat)
    requires forall i :: 0 <= i < |ds| ==> IsHexDigit(ds[i])
    requires 0 < k <= |ds|
    ensures HexValue(ds[..k]) == HexValue(ds[..k - 1]) * 16 + DigitValue(ds[k - 1])
  {
    assert ds[..k][..k - 1] == ds[..k - 1];
  }

  /** Three hex digits spell d0 * 256 + d1 * 16 + d2. */
  lemma HexValueThree(h: string)
    requires |h| == 3 && forall k :: 0 <= k < 3 ==> IsHexDigit(h[k])
    ensures HexValue(h) == DigitValue(h[0]) * 256 + DigitValue(h[1]) * 16 + DigitValue(h[2])
  {
    assert h[..0] == [] && h[..3] == h;
    HexValuePrefix(h, 1);
    HexValuePrefix(h, 2);
    HexValuePrefix(h, 3);
  }

  /** Six hex digits spell the three bytes d0d1, d2d3 and d4d5. */
  lemma HexValueSix(h: string)
    requires |h| == 6 && forall k :: 0 <= k < 6 ==> IsHexDigit(h[k])
    ensures HexValue(h) == (DigitValue(h[0]) * 16 + DigitValue(h[1])) * 65536 +
                           (DigitValue(h[2]) * 16 + DigitValue(h[3])) * 256 +
                           DigitValue(h[4]) * 16 + DigitValue(h[5])
  {
    var hi := h[..3];
    HexValueThree(hi);
    assert hi[0] == h[0] && hi[1] == h[1] && hi[2] == h[2];
    HexValuePrefix(h, 4);
    HexValuePrefix(h, 5);
    HexValuePrefix(h, 6);
    assert h[..6] == h;
  }

  /** Three hex digits: each nibble times 17 (the digit written twice). */
  lemma DecodeTwelveBit(s: string)
    requires |Trim(s)| == 3
    requires forall k :: 0 <= k < 3 ==> IsHexDigit(Trim(s)[k])
    ensures Decode(s) == Rgba(255, DigitValue(Trim(s)[0]) * 17,
                              DigitValue(Trim(s)[1]) * 17, DigitValue(Trim(s)[2]) * 17)
  {
    var h := Trim(s);
    ScanHexAllDigits(h);
    HexValueThree(h);
    TwelveBitNibbles(DigitValue(h[0]), DigitValue(h[1]), DigitValue(h[2]));
  }

  /** Six hex digits: red, green and blue are the three bytes they spell. */
  lemma DecodeTwentyFourBit(s: string)
    requires |Trim(s)| == 6
    requires forall k :: 0 <= k < 6 ==> IsHexDigit(Trim(s)[k])
    ensures Decode(s) == Rgba(255, DigitValue(Trim(s)[0]) * 16 + DigitValue(Trim(s)[1]),
                              DigitValue(Trim(s)[2]) * 16 + DigitValue(Trim(s)[3]),
                              DigitValue(Trim(s)[4]) * 16 + DigitValue(Trim(s)[5]))
  {
    var h := Trim(s);
    ScanHexAllDigits(h);
    HexValueSix(h);
    TwentyFourBitBytes(DigitValue(h[0]) * 16 + DigitValue(h[1]),
                       DigitValue(h[2]) * 16 + DigitValue(h[3]),
                       DigitValue(h[4]) * 16 + DigitValue(h[5]));
  }

  /** A trimmed string that does not start with a hex digit scans as 0 and
      so decodes to opaque black, whatever its length. */
  lemma DecodeNoLeadingDigit(s: string)
    requires Trim(s) == [] || !IsHexDigit(Trim(s)[0])
    ensures Decode(s) == Rgba(255, 0, 0, 0)
  {
    assert DigitPrefixLength(Trim(s)) == 0;
  }

  /** The two lower-case hex digits of a byte. */
  function ByteHex(v: nat): (s: string)
    requires v < 256
    ensures |s| == 2
  {
    [HexDigit(v / 16), HexDigit(v % 16)]
  }

  /** `#rrggbb`, the form colour codes take on the server. */
  function LongHexString(c: Rgba): (s: string)
    requires IsOpaqueByteColor(c)
    ensures |s| == 7
  {
    "#" + ByteHex(c.r) + ByteHex(c.g) + ByteHex(c.b)
  }

  /** `#rgb`, the short form. */
  function ShortHexString(r: nat, g: nat, b: nat): (s: string)
    requires r < 16 && g < 16 && b < 16
    ensures |s| == 4
  {
    "#" + [HexDigit(r), HexDigit(g), HexDigit(b)]
  }

  /** Decoding `#rrggbb` gives back the colour it was written from. */
  lemma DecodeLongHexString(c: Rgba)
    requires IsOpaqueByteColor(c)
    ensures Decode(LongHexString(c)) == c
  {
    var d := ByteHex(c.r) + ByteHex(c.g) + ByteHex(c.b);
    assert LongHexString(c) == ['#'] + d;
    TrimMarked('#', d);
    DecodeTwentyFourBit(LongHexString(c));
  }

  /** Decoding `#rgb` repeats each digit: component x becomes x * 17. */
  lemma DecodeShortHexString(r: nat, g: nat, b: nat)
    requires r < 16 && g < 16 && b < 16
    ensures Decode(ShortHexString(r, g, b)) == Rgba(255, r * 17, g * 17, b * 17)
  {
    var d := [HexDigit(r), HexDigit(g), HexDigit(b)];
    assert ShortHexString(r, g, b) == ['#'] + d;
    TrimMarked('#', d);
    DecodeTwelveBit(ShortHexString(r, g, b));
  }

  /** Two strings of the same length whose characters lower-case alike. */
  ghost predicate CaseAlike(s: string, t: string)
  {
    |s| == |t| && forall i :: 0 <= i < |s| ==> Lower(s[i]) == Lower(t[i])
  }

  lemma CaseAlikeSlice(s: string, t: string, i: nat, j: nat)
    requires CaseAlike(s, t) && i <= j <= |s|
    ensures CaseAlike(s[i..j], t[i..j])
  {
  }

  lemma {:induction false} LeadingCountCaseAlike(s: string, t: string)
    requires CaseAlike(s, t)
    ensures LeadingCount(s) == LeadingCount(t)
    decreases |s|
  {
    if s != [] {
      DigitValueIgnoresCase(s[0]);
      DigitValueIgnoresCase(t[0]);
      CaseAlikeSlice(s, t, 1, |s|);
      LeadingCountCaseAlike(s[1..], t[1..]);
    }
  }

  lemma {:induction false} TrailingCountCaseAlike(s: string, t: string)
    requires CaseAlike(s, t)
    ensures TrailingCount(s) == TrailingCount(t)
    decreases |s|
  {
    if s != [] {
      DigitValueIgnoresCase(s[|s| - 1]);
      DigitValueIgnoresCase(t[|t| - 1]);
      CaseAlikeSlice(s, t, 0, |s| - 1);
      TrailingCountCaseAlike(s[..|s| - 1], t[..|t| - 1]);
    }
  }

  lemma TrimCaseAlike(s: string, t: string)
    requires CaseAlike(s, t)
    ensures CaseAlike(Trim(s), Trim(t))
  {
    LeadingCountCaseAlike(s, t);
    var l := LeadingCount(s);
    CaseAlikeSlice(s, t, l, |s|);
    TrailingCountCaseAlike(s[l..], t[l..]);
  }

  lemma {:induction false} DigitPrefixLengthCaseAlike(s: string, t: string)
    requires CaseAlike(s, t)
    ensures DigitPrefixLength(s) == DigitPrefixLength(t)
    decreases |s|
  {
    if s != [] {
      DigitValueIgnoresCase(s[0]);
      DigitValueIgnoresCase(t[0]);
      CaseAlikeSlice(s, t, 1, |s|);
      DigitPrefixLengthCaseAlike(s[1..], t[1..]);
    }
  }

  lemma {:induction false} HexValueCaseAlike(s: string, t: string)
    requires CaseAlike(s, t)
    requires forall k :: 0 <= k < |s| ==> IsHexDigit(s[k])
    requires forall k :: 0 <= k < |t| ==> IsHexDigit(t[k])
    ensures HexValue(s) == HexValue(t)
    decreases |s|
  {
    if s != [] {
      DigitValueIgnoresCase(s[|s| - 1]);
      DigitValueIgnoresCase(t[|t| - 1]);
      CaseAlikeSlice(s, t, 0, |s| - 1);
      HexValueCaseAlike(s[..|s| - 1], t[..|t| - 1]);
    }
  }

  /** Strings that lower-case alike decode to the same colour. */
  lemma DecodeCaseAlike(s: string, t: string)
    requires CaseAlike(s, t)
    ensures Decode(s) == Decode(t)
  {
    TrimCaseAlike(s, t);
    var hs, ht := Trim(s), Trim(t);
    DigitPrefixLengthCaseAlike(hs, ht);
    CaseAlikeSlice(hs, ht, 0, DigitPrefixLength(hs));
    HexValueCaseAlike(hs[..DigitPrefixLength(hs)], ht[..DigitPrefixLength(ht)]);
  }

  /** The decoder ignores case: `#FFF` and `#fff` are the same colour. */
  lemma DecodeIgnoresCase(s: string)
    ensures Decode(Lowercased(s)) == Decode(s)
  {
    assert CaseAlike(Lowercased(s), s);
    DecodeCaseAlike(Lowercased(s), s);
  }
}
