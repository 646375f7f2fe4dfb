/** Base64 as RFC 4648 defines it: the encoding by six-bit digits, and a decoder
    written from the table of section 4 that inverts it. */
module Base64Encoding {
  import opened Options
  import opened Utf8

  // ----- encoding -----

  /** The 64 digits, and one that stands for padding. */
  type Digit = d: int | 0 <= d <= 64

  const PADDING: Digit := 64

  /** The alphabets of sections 4 and 5 of RFC 4648; the second is safe in a URL. */
  function Symbol(d: Digit, url: bool): char {
    if d < 26 then (d + 65) as char
    else if d < 52 then (d + 71) as char
    else if d < 62 then (d - 4) as char
    else if d == 62 then (if url then '-' else '+')
    else if d == 63 then (if url then '_' else '/')
    else '='
  }

  /** The four digits of the first three bytes, or of the fewer there are. */
  function First(b: Bytes): Digit
    requires b != []
  {
    b[0] / 4
  }

  function Second(b: Bytes): Digit
    requires b != []
  {
    b[0] % 4 * 16 + if |b| > 1 then b[1] / 16 else 0
  }

  function Third(b: Bytes): Digit {
    if |b| > 1 then b[1] % 16 * 4 + (if |b| > 2 then b[2] / 64 else 0) else PADDING
  }

  function Fourth(b: Bytes): Digit {
    if |b| > 2 then b[2] % 64 else PADDING
  }

  function Rest(b: Bytes): Bytes {
    if |b| > 3 then b[3..] else []
  }

  function Group(b: Bytes, url: bool): (r: string)
    requires b != []
    ensures |r| == 4
  {
    [Symbol(First(b), url), Symbol(Second(b), url), Symbol(Third(b), url), Symbol(Fourth(b), url)]
  }

  function Base64(b: Bytes, url: bool): string
    decreases |b|
  {
    if b == [] then ""
    else Group(b, url) + Base64(Rest(b), url)
  }

  lemma {:induction false} Base64Longer(b: Bytes, url: bool)
    requires b != []
    ensures |Base64(b, url)| > |b|
    decreases |b|
  {
    if |b| > 3 {
      Base64Longer(Rest(b), url);
    }
  }

  lemma OneGroup(b: Bytes, d: Digit, e: Digit, f: Digit, g: Digit)
    requires |b| == 3 && First(b) == d && Second(b) == e && Third(b) == f && Fourth(b) == g
    ensures Base64(b, false) == [Symbol(d, false), Symbol(e, false), Symbol(f, false), Symbol(g, false)]
  {
    assert Base64(Rest(b), false) == "";
  }

  // ----- decoding -----

  /** Table 1 of section 4. */
  const A_TO_M := "ABCDEFGHIJKLM"
  const N_TO_Z := "NOPQRSTUVWXYZ"
  const A_TO_M_SMALL := "abcdefghijklm"
  const N_TO_Z_SMALL := "nopqrstuvwxyz"
  const REST := "0123456789+/"
  const ALPHABET := A_TO_M + N_TO_Z + A_TO_M_SMALL + N_TO_Z_SMALL + REST

  const PAD := '='

  /** Where the character first occurs, or the length if it does not. */
  function Position(s: string, c: char): nat {
    if s == "" || s[0] == c then 0 else 1 + Position(s[1..], c)
  }

  /** The value of a digit; 64 for a character outside the alphabet. */
  function Value(c: char): nat {
    Position(ALPHABET, c)
  }

  /** The one to three bytes of four characters; the bits that padding leaves unused are
      zero. */
  function DecodeGroup(s: string): Option<Bytes>
    requires |s| == 4
  {
    var d: int, e: int, f: int, g: int := Value(s[0]), Value(s[1]), Value(s[2]), Value(s[3]);
    if d >= 64 || e >= 64 then None
    else if s[2] == s[3] == PAD then
      if e % 16 == 0 then Some([d * 4 + e / 16]) else None
    else if f >= 64 then None
    else if s[3] == PAD then
      if f % 4 == 0 then Some([d * 4 + e / 16, e % 16 * 16 + f / 4]) else None
    else if g >= 64 then None
    else Some([d * 4 + e / 16, e % 16 * 16 + f / 4, f % 4 * 64 + g])
  }

  /** The bytes of a text of such groups; only the last one may be padded. */
  function Decode(s: string): Option<Bytes>
    decreases |s|
  {
    if s == "" then Some([])
    else if |s| < 4 then None
    else
      match DecodeGroup(s[..4])
      case None => None
      case Some(head) =>
        if |head| < 3 && s[4..] != "" then None
        else
          match Decode(s[4..])
          case None => None
          case Some(rest) => Some(head + rest)
  }

  lemma {:induction false} PositionIs(s: string, c: char, n: nat)
    requires n < |s| && s[n] == c && forall k | 0 <= k < n :: s[k] != c
    ensures Position(s, c) == n
  {
    if n > 0 {
      PositionIs(s[1..], c, n - 1);
    }
  }

  lemma AToMIs(d: Digit)
    requires 0 <= d < 13
    ensures A_TO_M[d - 0] == Symbol(d, false)
  {
    assert A_TO_M[0] == 'A' && A_TO_M[1] == 'B' && A_TO_M[2] == 'C' && A_TO_M[3] == 'D' && A_TO_M[4] == 'E';
    assert A_TO_M[5] == 'F' && A_TO_M[6] == 'G' && A_TO_M[7] == 'H' && A_TO_M[8] == 'I' && A_TO_M[9] == 'J';
    assert A_TO_M[10] == 'K' && A_TO_M[11] == 'L' && A_TO_M[12] == 'M';
  }

  lemma NToZIs(d: Digit)
    requires 13 <= d < 26
    ensures N_TO_Z[d - 13] == Symbol(d, false)
  {
    assert N_TO_Z[0] == 'N' && N_TO_Z[1] == 'O' && N_TO_Z[2] == 'P' && N_TO_Z[3] == 'Q' && N_TO_Z[4] == 'R';
    assert N_TO_Z[5] == 'S' && N_TO_Z[6] == 'T' && N_TO_Z[7] == 'U' && N_TO_Z[8] == 'V' && N_TO_Z[9] == 'W';
    assert N_TO_Z[10] == 'X' && N_TO_Z[11] == 'Y' && N_TO_Z[12] == 'Z';
  }

  lemma AToMSmallIs(d: Digit)
    requires 26 <= d < 39
    ensures A_TO_M_SMALL[d - 26] == Symbol(d, false)
  {
    assert A_TO_M_SMALL[0] == 'a' && A_TO_M_SMALL[1] == 'b' && A_TO_M_SMALL[2] == 'c' && A_TO_M_SMALL[3] == 'd' && A_TO_M_SMALL[4] == 'e';
    assert A_TO_M_SMALL[5] == 'f' && A_TO_M_SMALL[6] == 'g' && A_TO_M_SMALL[7] == 'h' && A_TO_M_SMALL[8] == 'i' && A_TO_M_SMALL[9] == 'j';
    assert A_TO_M_SMALL[10] == 'k' && A_TO_M_SMALL[11] == 'l' && A_TO_M_SMALL[12] == 'm';
  }

  lemma NToZSmallIs(d: Digit)
    requires 39 <= d < 52
    ensures N_TO_Z_SMALL[d - 39] == Symbol(d, false)
  {
    assert N_TO_Z_SMALL[0] == 'n' && N_TO_Z_SMALL[1] == 'o' && N_TO_Z_SMALL[2] == 'p' && N_TO_Z_SMALL[3] == 'q' && N_TO_Z_SMALL[4] == 'r';
    assert N_TO_Z_SMALL[5] == 's' && N_TO_Z_SMALL[6] == 't' && N_TO_Z_SMALL[7] == 'u' && N_TO_Z_SMALL[8] == 'v' && N_TO_Z_SMALL[9] == 'w';
    assert N_TO_Z_SMALL[10] == 'x' && N_TO_Z_SMALL[11] == 'y' && N_TO_Z_SMALL[12] == 'z';
  }

  lemma RestIs(d: Digit)
    requires 52 <= d < 64
    ensures REST[d - 52] == Symbol(d, false)
  {
    assert REST[0] == '0' && REST[1] == '1' && REST[2] == '2' && REST[3] == '3' && REST[4] == '4';
    assert REST[5] == '5' && REST[6] == '6' && REST[7] == '7' && REST[8] == '8' && REST[9] == '9';
    assert REST[10] == '+' && REST[11] == '/';
  }

  /** The digits are those of the table. */
  lemma SymbolIs(d: Digit)
    requires d < 64
    ensures ALPHABET[d] == Symbol(d, false)
  {
    if d < 13 {
      AToMIs(d);
    } else if d < 26 {
      NToZIs(d);
    } else if d < 39 {
      AToMSmallIs(d);
    } else if d < 52 {
      NToZSmallIs(d);
    } else {
      RestIs(d);
    }
  }

  lemma ValueIs(d: Digit)
    requires d < 64
    ensures Value(Symbol(d, false)) == d
  {
    SymbolIs(d);
    forall k: int | 0 <= k < d ensures ALPHABET[k] != Symbol(d, false) {
      SymbolIs(k);
    }
    PositionIs(ALPHABET, Symbol(d, false), d);
  }

  /** The digits of a group give its bytes back. */
  lemma GroupBytes(b: Bytes)
    requires b != []
    ensures First(b) < 64 && Second(b) < 64 && b[0] == First(b) * 4 + Second(b) / 16
    ensures |b| == 1 ==> Second(b) % 16 == 0 && Third(b) == Fourth(b) == PADDING
    ensures |b| > 1 ==> Third(b) < 64 && b[1] == Second(b) % 16 * 16 + Third(b) / 4
    ensures |b| == 2 ==> Third(b) % 4 == 0 && Fourth(b) == PADDING
    ensures |b| > 2 ==> Fourth(b) < 64 && b[2] == Third(b) % 4 * 64 + Fourth(b)
  {
  }

  /** A digit is no padding. */
  lemma DigitIsNoPad(d: Digit)
    ensures Symbol(d, false) == PAD <==> d == PADDING
  {
  }

  lemma DecodeGroupOf(b: Bytes)
    requires b != []
    ensures DecodeGroup(Group(b, false)) == Some(if |b| > 3 then b[..3] else b)
  {
    GroupBytes(b);
    ValueIs(First(b));
    ValueIs(Second(b));
    DigitIsNoPad(Third(b));
    DigitIsNoPad(Fourth(b));
    if |b| == 1 {
      assert b == [b[0]];
    } else if |b| == 2 {
      ValueIs(Third(b));
      assert b == [b[0], b[1]];
    } else {
      ValueIs(Third(b));
      ValueIs(Fourth(b));
      assert (if |b| > 3 then b[..3] else b) == [b[0], b[1], b[2]];
    }
  }

  lemma DecodeThen(head: string, tail: string)
    requires |head| == 4
    ensures Decode(head + tail) ==
            match DecodeGroup(head)
            case None => None
            case Some(bytes) =>
              if |bytes| < 3 && tail != "" then None
              else match Decode(tail) case None => None case Some(rest) => Some(bytes + rest)
  {
    assert (head + tail)[..4] == head && (head + tail)[4..] == tail;
  }

  /** Decoding inverts encoding, for all bytes. */
  lemma {:induction false} DecodeBase64(b: Bytes)
    ensures Decode(Base64(b, false)) == Some(b)
    decreases |b|
  {
    if b != [] {
      DecodeThen(Group(b, false), Base64(Rest(b), false));
      DecodeGroupOf(b);
      DecodeBase64(Rest(b));
      if |b| > 3 {
        assert b == b[..3] + Rest(b);
      } else {
        assert b + [] == b;
      }
    }
  }

  /** The number of characters of padding. */
  function Padding(b: Bytes): nat {
    (3 - |b| % 3) % 3
  }

  lemma GroupShape(b: Bytes, url: bool)
    requires b != []
    ensures forall i | 0 <= i < 4 :: Group(b, url)[i] == PAD <==> i > |b|
  {
  }

  /** The text has four characters for every three bytes or part of them. */
  lemma {:induction false} Base64Length(b: Bytes, url: bool)
    ensures |Base64(b, url)| == 4 * ((|b| + 2) / 3)
    decreases |b|
  {
    if b != [] {
      Base64Length(Rest(b), url);
    }
  }

  /** Where a character of the text comes from. */
  lemma CharacterAt(b: Bytes, url: bool, i: nat)
    requires i < |Base64(b, url)|
    ensures b != []
    ensures Base64(b, url)[i] == if i < 4 then Group(b, url)[i] else Base64(Rest(b), url)[i - 4]
  {
  }

  /** Exactly the last ones, as many as bytes are missing, are padding. */
  lemma {:induction false} Base64Padding(b: Bytes, url: bool, i: nat)
    requires i < |Base64(b, url)|
    ensures Base64(b, url)[i] == PAD <==> i >= |Base64(b, url)| - Padding(b)
    decreases |b|
  {
    CharacterAt(b, url, i);
    PaddingStep(b);
    LengthStep(b, url);
    if i >= 4 {
      Base64Padding(Rest(b), url, i - 4);
    } else {
      GroupShape(b, url);
    }
  }

  lemma LengthStep(b: Bytes, url: bool)
    requires b != []
    ensures |Base64(b, url)| == 4 + |Base64(Rest(b), url)|
    ensures |b| <= 3 ==> |Base64(b, url)| == 4
    ensures |b| > 3 ==> |Base64(b, url)| >= 8
  {
  }

  lemma PaddingStep(b: Bytes)
    requires b != []
    ensures |b| <= 3 ==> Padding(b) == 3 - |b|
    ensures |b| > 3 ==> Padding(Rest(b)) == Padding(b) <= 2
  {
  }

  /** Section 5: the other alphabet differs in the last two digits only. */
  lemma {:induction false} UrlAlphabet(b: Bytes, i: nat)
    requires i < |Base64(b, false)|
    ensures i < |Base64(b, true)|
    ensures Base64(b, true)[i] == match Base64(b, false)[i] case '+' => '-' case '/' => '_' case c => c
    ensures Base64(b, false)[i] == match Base64(b, true)[i] case '-' => '+' case '_' => '/' case c => c
    decreases |b|
  {
    Base64Length(b, false);
    Base64Length(b, true);
    CharacterAt(b, false, i);
    CharacterAt(b, true, i);
    if i >= 4 {
      UrlAlphabet(Rest(b), i - 4);
    }
  }

  /** So different bytes have different texts, in both alphabets. */
  lemma Base64Injective(a: Bytes, b: Bytes, url: bool)
    requires Base64(a, url) == Base64(b, url)
    ensures a == b
  {
    DecodeBase64(a);
    DecodeBase64(b);
    if url {
      SameText(a, b);
    }
  }

  lemma SameText(a: Bytes, b: Bytes)
    requires Base64(a, true) == Base64(b, true)
    ensures Base64(a, false) == Base64(b, false)
  {
    Base64Length(a, true);
    Base64Length(a, false);
    Base64Length(b, true);
    Base64Length(b, false);
    forall i | 0 <= i < |Base64(a, false)| ensures Base64(a, false)[i] == Base64(b, false)[i] {
      UrlAlphabet(a, i);
      UrlAlphabet(b, i);
    }
  }
}
