/** UTF-8 as RFC 3629 defines it: the encoding of section 3, the byte grammar of
    section 4, and the fact that byte order is code point order. */
module Utf8 {

  type Byte = b: int | 0 <= b < 256

  type Bytes = seq<Byte>

  const MAX_RUNE := 0x10FFFF

  /** A code point that may be encoded: surrogates are excluded. */
  type Rune = c: int | 0 <= c <= MAX_RUNE && !(0xD800 <= c <= 0xDFFF)

  /** Section 3: the octets of a code point. */
  function Encode(c: Rune): (r: Bytes)
    ensures 1 <= |r| <= 4
  {
    if c < 0x80 then [c]
    else if c < 0x800 then [0xC0 + c / 64, 0x80 + c % 64]
    else if c < 0x10000 then [0xE0 + c / 4096, 0x80 + c / 64 % 64, 0x80 + c % 64]
    else [0xF0 + c / 262144, 0x80 + c / 4096 % 64, 0x80 + c / 64 % 64, 0x80 + c % 64]
  }

  predicate Tail(b: Byte) {
    0x80 <= b <= 0xBF
  }

  /** Section 4: the length of the character that `s` starts with, or 0 if it
      starts with none. */
  function Width(s: Bytes): (w: nat)
    ensures w <= |s| && w <= 4
  {
    if s == [] then 0
    else if s[0] <= 0x7F then 1
    else if 0xC2 <= s[0] <= 0xDF && |s| >= 2 && Tail(s[1]) then 2
    else if |s| >= 3 && Tail(s[2]) &&
            ((s[0] == 0xE0 && 0xA0 <= s[1] <= 0xBF) || (0xE1 <= s[0] <= 0xEC && Tail(s[1])) ||
             (s[0] == 0xED && 0x80 <= s[1] <= 0x9F) || (0xEE <= s[0] <= 0xEF && Tail(s[1]))) then 3
    else if |s| >= 4 && Tail(s[2]) && Tail(s[3]) &&
            ((s[0] == 0xF0 && 0x90 <= s[1] <= 0xBF) || (0xF1 <= s[0] <= 0xF3 && Tail(s[1])) ||
             (s[0] == 0xF4 && 0x80 <= s[1] <= 0x8F)) then 4
    else 0
  }

  /** The code point of the character that `s` starts with. */
  function FirstRune(s: Bytes): (c: Rune)
    requires Width(s) > 0
  {
    var b: seq<int> := s;
    match Width(s)
    case 1 => b[0]
    case 2 => (b[0] - 0xC0) * 64 + (b[1] - 0x80)
    case 3 => ((b[0] - 0xE0) * 64 + (b[1] - 0x80)) * 64 + (b[2] - 0x80)
    case _ => (((b[0] - 0xF0) * 64 + (b[1] - 0x80)) * 64 + (b[2] - 0x80)) * 64 + (b[3] - 0x80)
  }

  /** What `utf8.ValidString` reports. */
  predicate Valid(s: Bytes) {
    s == [] || (Width(s) > 0 && Valid(s[Width(s)..]))
  }

  /** The code points that ranging over a valid string yields. */
  function Runes(s: Bytes): seq<Rune>
    requires Valid(s)
  {
    if s == [] then [] else [FirstRune(s)] + Runes(s[Width(s)..])
  }

  function EncodeAll(cs: seq<Rune>): Bytes {
    if cs == [] then [] else Encode(cs[0]) + EncodeAll(cs[1..])
  }

  // ----- encoding and decoding are inverse -----

  /** The base-64 digits of a code point. */
  lemma Digits(c: nat)
    ensures c == c / 64 * 64 + c % 64
    ensures c / 64 == c / 4096 * 64 + c / 64 % 64
    ensures c / 4096 == c / 262144 * 64 + c / 4096 % 64
  {
  }

  lemma Digit(c: int, h: int, d: int)
    requires 0 <= h && 0 <= d < 64 && c == h * 64 + d
    ensures c / 64 == h && c % 64 == d
  {
  }

  lemma DecodeEncode(c: Rune, rest: Bytes)
    ensures Width(Encode(c) + rest) == |Encode(c)|
    ensures FirstRune(Encode(c) + rest) == c
  {
    Digits(c);
  }

  lemma EncodeDecode(s: Bytes)
    requires Width(s) > 0
    ensures Encode(FirstRune(s)) == s[..Width(s)]
  {
    if Width(s) == 4 {
      EncodeDecodeFour(s);
    } else if Width(s) == 3 {
      EncodeDecodeThree(s);
    } else if Width(s) == 2 {
      var b: seq<int> := s;
      Digit(FirstRune(s), b[0] - 0xC0, b[1] - 0x80);
    }
  }

  lemma EncodeDecodeThree(s: Bytes)
    requires Width(s) == 3
    ensures Encode(FirstRune(s)) == s[..3]
  {
    var b: seq<int> := s;
    ThreeDigits(FirstRune(s), b[0] - 0xE0, b[1] - 0x80, b[2] - 0x80);
  }

  lemma EncodeDecodeFour(s: Bytes)
    requires Width(s) == 4
    ensures Encode(FirstRune(s)) == s[..4]
  {
    var b: seq<int> := s;
    FourDigits(FirstRune(s), b[0] - 0xF0, b[1] - 0x80, b[2] - 0x80, b[3] - 0x80);
  }

  lemma FourDigits(c: int, g: int, h: int, d: int, e: int)
    requires 0 <= g && 0 <= h < 64 && 0 <= d < 64 && 0 <= e < 64 && c == ((g * 64 + h) * 64 + d) * 64 + e
    ensures c / 262144 == g && c / 4096 % 64 == h && c / 64 % 64 == d && c % 64 == e
  {
    ThreeDigits(c, g * 64 + h, d, e);
    Digit(g * 64 + h, g, h);
  }

  lemma ThreeDigits(c: int, h: int, d: int, e: int)
    requires 0 <= h && 0 <= d < 64 && 0 <= e < 64 && c == (h * 64 + d) * 64 + e
    ensures c / 4096 == h && c / 64 % 64 == d && c % 64 == e && c / 262144 == h / 64
  {
    Digit(c, h * 64 + d, e);
    Digit(h * 64 + d, h, d);
    Digits(c);
  }

  /** Encoded code points are valid and can be read back. */
  lemma {:induction false} EncodedIsValid(cs: seq<Rune>)
    ensures Valid(EncodeAll(cs))
    ensures Runes(EncodeAll(cs)) == cs
  {
    if cs != [] {
      var s := EncodeAll(cs);
      DecodeEncode(cs[0], EncodeAll(cs[1..]));
      assert s[Width(s)..] == EncodeAll(cs[1..]);
      EncodedIsValid(cs[1..]);
    }
  }

  // ----- the NUL byte and the NUL code point -----

  lemma EncodedNul(c: Rune)
    ensures 0 in Encode(c) <==> c == 0
  {
    if c == 0 {
      assert Encode(c)[0] == 0;
    }
  }

  lemma InEither(s: Bytes, w: nat)
    requires w <= |s|
    ensures 0 in s <==> 0 in s[..w] || 0 in s[w..]
  {
    assert s == s[..w] + s[w..];
  }

  lemma InFirstOrRest(c: Rune, cs: seq<Rune>)
    ensures 0 in [c] + cs <==> c == 0 || 0 in cs
  {
  }

  /** In a valid string the byte 0 occurs only as the code point U+0000. */
  lemma {:induction false} NulByteIsNulRune(s: Bytes)
    requires Valid(s)
    ensures 0 in s <==> 0 in Runes(s)
  {
    if s != [] {
      var w := Width(s);
      EncodeDecode(s);
      EncodedNul(FirstRune(s));
      NulByteIsNulRune(s[w..]);
      InEither(s, w);
      InFirstOrRest(FirstRune(s), Runes(s[w..]));
    }
  }

  // ----- byte order -----

  /** The order in which byte strings are compared. */
  predicate Less(a: Bytes, b: Bytes) {
    b != [] && (a == [] || a[0] < b[0] || (a[0] == b[0] && Less(a[1..], b[1..])))
  }

  predicate AtMost(a: Bytes, b: Bytes) {
    a == b || Less(a, b)
  }

  /** `a` and `b` agree up to `i`, where `a` has the smaller byte. */
  predicate Splits(a: Bytes, b: Bytes, i: nat) {
    i < |a| && i < |b| && a[..i] == b[..i] && a[i] < b[i]
  }

  lemma {:induction false} SplitsLess(a: Bytes, b: Bytes, i: nat)
    requires Splits(a, b, i)
    ensures Less(a, b)
    decreases i
  {
    if i > 0 {
      assert a[0] == a[..i][0] == b[..i][0] == b[0];
      assert a[1..][..i - 1] == a[..i][1..] == b[..i][1..] == b[1..][..i - 1];
      SplitsLess(a[1..], b[1..], i - 1);
    }
  }

  lemma {:induction false} LessPrefix(p: Bytes, a: Bytes, b: Bytes)
    ensures Less(p + a, p + b) <==> Less(a, b)
  {
    if p == [] {
      assert p + a == a && p + b == b;
    } else {
      assert (p + a)[1..] == p[1..] + a && (p + b)[1..] == p[1..] + b;
      LessPrefix(p[1..], a, b);
    }
  }

  /** Comparing the leading digits decides, unless they are equal. */
  lemma DigitOrder(c: nat, d: nat)
    requires c < d
    ensures c / 64 <= d / 64
    ensures c / 64 == d / 64 ==> c % 64 < d % 64
  {
  }

  lemma SplitPoint(c: Rune, d: Rune) returns (i: nat)
    requires c < d
    ensures Splits(Encode(c), Encode(d), i)
  {
    var a, b := Encode(c), Encode(d);
    if |a| != |b| || a[0] != b[0] {
      LeadingByte(c, d);
      i := 0;
    } else if a[1] != b[1] {
      SecondByte(c, d);
      i := 1;
    } else if a[2] != b[2] {
      ThirdByte(c, d);
      i := 2;
    } else {
      FourthByte(c, d);
      i := 3;
    }
  }

  lemma LeadingByte(c: Rune, d: Rune)
    requires c < d && (|Encode(c)| != |Encode(d)| || Encode(c)[0] != Encode(d)[0])
    ensures Encode(c)[0] < Encode(d)[0]
  {
    DigitOrder(c, d);
  }

  lemma SecondByte(c: Rune, d: Rune)
    requires c < d && |Encode(c)| == |Encode(d)| && Encode(c)[0] == Encode(d)[0]
    ensures |Encode(c)| > 1 && Encode(c)[1] <= Encode(d)[1]
  {
    Digits(c);
    Digits(d);
  }

  lemma ThirdByte(c: Rune, d: Rune)
    requires c < d && |Encode(c)| == |Encode(d)| && |Encode(c)| > 1
    requires Encode(c)[0] == Encode(d)[0] && Encode(c)[1] == Encode(d)[1]
    ensures |Encode(c)| > 2 && Encode(c)[2] <= Encode(d)[2]
  {
    Digits(c);
    Digits(d);
  }

  lemma FourthByte(c: Rune, d: Rune)
    requires c < d && |Encode(c)| == |Encode(d)| && |Encode(c)| > 2
    requires Encode(c)[0] == Encode(d)[0] && Encode(c)[1] == Encode(d)[1] && Encode(c)[2] == Encode(d)[2]
    ensures |Encode(c)| > 3 && Encode(c)[3] < Encode(d)[3]
  {
    Digits(c);
    Digits(d);
  }

  /** Byte order is code point order, whatever follows. */
  lemma EncodeOrder(c: Rune, d: Rune, x: Bytes, y: Bytes)
    requires c < d
    ensures Less(Encode(c) + x, Encode(d) + y)
  {
    var i := SplitPoint(c, d);
    var a, b := Encode(c), Encode(d);
    assert (a + x)[..i] == a[..i] && (b + y)[..i] == b[..i];
    SplitsLess(a + x, b + y, i);
  }
}
