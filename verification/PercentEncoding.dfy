/** Percent-encoding of text, sections 2.1, 2.3 and 2.5 of RFC 3986: packages/core/src/aws/signature.ts. */
module PercentEncoding {

  type Byte = n: int | 0 <= n < 256

  predicate IsAlphanumeric(c: char) {
    'a' <= c <= 'z' || 'A' <= c <= 'Z' || '0' <= c <= '9'
  }

  /** The unreserved characters of section 2.3. */
  predicate IsUnreserved(c: char) {
    IsAlphanumeric(c) || c == '-' || c == '.' || c == '_' || c == '~'
  }

  /** What `encodeURIComponent` leaves alone that is not unreserved: the class `[!'()*]` replaced afterwards. */
  predicate IsReplaced(c: char) {
    c == '!' || c == '\'' || c == '(' || c == ')' || c == '*'
  }

  const HEX_DIGITS: string := "0123456789ABCDEF"

  /** The digits that producers of triples should use, section 2.1. */
  predicate IsHexDigit(c: char) {
    '0' <= c <= '9' || 'A' <= c <= 'F'
  }

  function HexDigit(n: int): (c: char)
    requires 0 <= n < 16
    ensures IsHexDigit(c)
  {
    HEX_DIGITS[n]
  }

  function Triple(b: Byte): string {
    ['%', HexDigit(b / 16), HexDigit(b % 16)]
  }

  /** The bytes of one character in UTF-8. */
  function CharBytes(c: char): (bytes: seq<Byte>)
    ensures bytes != []
  {
    var n := c as int;
    if n < 0x80 then [n]
    else if n < 0x800 then [0xC0 + n / 64, 0x80 + n % 64]
    else if n < 0x10000 then [0xE0 + n / 4096, 0x80 + n / 64 % 64, 0x80 + n % 64]
    else [0xF0 + n / 262144, 0x80 + n / 4096 % 64, 0x80 + n / 64 % 64, 0x80 + n % 64]
  }

  function Bytes(s: string): seq<Byte> {
    if s == "" then [] else CharBytes(s[0]) + Bytes(s[1..])
  }

  function Triples(bytes: seq<Byte>): string {
    if bytes == [] then "" else Triple(bytes[0]) + Triples(bytes[1..])
  }

  function EncodeURIComponent(s: string): string {
    if s == "" then ""
    else
      (if IsUnreserved(s[0]) || IsReplaced(s[0]) then [s[0]] else Triples(CharBytes(s[0]))) + EncodeURIComponent(s[1..])
  }

  function ReplaceReserved(s: string): string {
    if s == "" then "" else (if IsReplaced(s[0]) then Triple(s[0] as int) else [s[0]]) + ReplaceReserved(s[1..])
  }

  function EncodeRfc3986(s: string): string {
    ReplaceReserved(EncodeURIComponent(s))
  }

  /** Section 2.5: the bytes of unreserved characters stand for themselves, all others become triples. */
  function EncodeBytes(bytes: seq<Byte>): string {
    if bytes == [] then "" else EncodeByte(bytes[0]) + EncodeBytes(bytes[1..])
  }

  function EncodeByte(b: Byte): string {
    if b < 0x80 && IsUnreserved(b as char) then [b as char] else Triple(b)
  }

  lemma {:induction false} ReplaceConcat(a: string, b: string)
    ensures ReplaceReserved(a + b) == ReplaceReserved(a) + ReplaceReserved(b)
  {
    if a == "" {
      assert a + b == b;
    } else {
      assert (a + b)[1..] == a[1..] + b;
      ReplaceConcat(a[1..], b);
    }
  }

  lemma {:induction false} EncodeBytesConcat(a: seq<Byte>, b: seq<Byte>)
    ensures EncodeBytes(a + b) == EncodeBytes(a) + EncodeBytes(b)
  {
    if a == [] {
      assert a + b == b;
    } else {
      assert (a + b)[1..] == a[1..] + b;
      EncodeBytesConcat(a[1..], b);
    }
  }

  /** Triples hold nothing that is replaced afterwards. */
  lemma {:induction false} TriplesStay(bytes: seq<Byte>)
    ensures ReplaceReserved(Triples(bytes)) == Triples(bytes)
  {
    if bytes != [] {
      TriplesStay(bytes[1..]);
      ReplaceConcat(Triple(bytes[0]), Triples(bytes[1..]));
      TripleStays(bytes[0]);
    }
  }

  lemma CharStays(c: char)
    requires !IsReplaced(c)
    ensures ReplaceReserved([c]) == [c]
  {
    assert [c][1..] == "";
  }

  lemma TripleStays(b: Byte)
    ensures ReplaceReserved(Triple(b)) == Triple(b)
  {
    var t := Triple(b);
    CharStays(t[0]);
    CharStays(t[1]);
    CharStays(t[2]);
    ReplaceConcat([t[1]], [t[2]]);
    ReplaceConcat([t[0]], [t[1]] + [t[2]]);
    assert t == [t[0]] + ([t[1]] + [t[2]]);
  }

  lemma {:induction false} TriplesOfHighBytes(bytes: seq<Byte>)
    requires forall i | 0 <= i < |bytes| :: bytes[i] >= 0x80
    ensures EncodeBytes(bytes) == Triples(bytes)
  {
    if bytes != [] {
      TriplesOfHighBytes(bytes[1..]);
    }
  }

  lemma EncodedChar(c: char)
    ensures EncodeBytes(CharBytes(c)) ==
      if IsUnreserved(c) then [c] else if IsReplaced(c) then Triple(c as int) else Triples(CharBytes(c))
  {
    var n := c as int;
    if n < 0x80 {
      assert CharBytes(c)[1..] == [];
      assert (CharBytes(c)[0] as char) == c;
    } else {
      TriplesOfHighBytes(CharBytes(c));
    }
  }

  /** The two passes of the source together are the encoding of RFC 3986 applied to the bytes of the text. */
  lemma {:induction false} EncodesBytes(s: string)
    ensures EncodeRfc3986(s) == EncodeBytes(Bytes(s))
  {
    if s != "" {
      var c := s[0];
      var first := if IsUnreserved(c) || IsReplaced(c) then [c] else Triples(CharBytes(c));
      EncodesBytes(s[1..]);
      ReplaceConcat(first, EncodeURIComponent(s[1..]));
      EncodeBytesConcat(CharBytes(c), Bytes(s[1..]));
      EncodedChar(c);
      if IsUnreserved(c) || IsReplaced(c) {
        assert [c][1..] == "";
      } else {
        TriplesStay(CharBytes(c));
      }
    }
  }

  /** Nothing but unreserved characters and percent triples. */
  predicate IsEncoded(t: string) {
    t == "" || (if IsUnreserved(t[0]) then IsEncoded(t[1..])
                else |t| >= 3 && t[0] == '%' && IsHexDigit(t[1]) && IsHexDigit(t[2]) && IsEncoded(t[3..]))
  }

  lemma {:induction false} EncodedBytesAreEncoded(bytes: seq<Byte>)
    ensures IsEncoded(EncodeBytes(bytes))
  {
    if bytes != [] {
      EncodedBytesAreEncoded(bytes[1..]);
      var t, rest := EncodeByte(bytes[0]), EncodeBytes(bytes[1..]);
      assert (t + rest)[|t|..] == rest;
    }
  }

  /** So the separators of a query do not occur in it. */
  lemma {:induction false} EncodedHasNoSeparators(t: string)
    requires IsEncoded(t)
    ensures '&' !in t && '=' !in t && '/' !in t
  {
    if t != "" {
      if IsUnreserved(t[0]) {
        EncodedHasNoSeparators(t[1..]);
        assert t == [t[0]] + t[1..];
      } else {
        EncodedHasNoSeparators(t[3..]);
        assert t == [t[0], t[1], t[2]] + t[3..];
      }
    }
  }

  function HexValue(c: char): (n: int)
    ensures 0 <= n < 16
  {
    if '0' <= c <= '9' then c as int - '0' as int else if 'A' <= c <= 'F' then c as int - 'A' as int + 10 else 0
  }

  /** Decoding, section 2.1. */
  function DecodeBytes(t: string): seq<Byte> {
    if t == "" then []
    else if t[0] == '%' && |t| >= 3 then [HexValue(t[1]) * 16 + HexValue(t[2])] + DecodeBytes(t[3..])
    else [t[0] as int % 256] + DecodeBytes(t[1..])
  }

  lemma HexRoundTrip(n: int)
    requires 0 <= n < 16
    ensures HexValue(HexDigit(n)) == n
  {}

  lemma {:induction false} DecodesBytes(bytes: seq<Byte>)
    ensures DecodeBytes(EncodeBytes(bytes)) == bytes
  {
    if bytes != [] {
      DecodesBytes(bytes[1..]);
      DecodesByte(bytes[0], EncodeBytes(bytes[1..]));
    }
  }

  lemma DecodesByte(b: Byte, rest: string)
    ensures DecodeBytes(EncodeByte(b) + rest) == [b] + DecodeBytes(rest)
  {
    hide HexDigit, HexValue;
    var t := EncodeByte(b);
    assert (t + rest)[|t|..] == rest;
    HexRoundTrip(b / 16);
    HexRoundTrip(b % 16);
  }

  /** The code point at the front of UTF-8 bytes, and how many bytes it takes. */
  function FirstCode(bytes: seq<Byte>): (int, nat)
    requires bytes != []
  {
    var b := bytes[0];
    if b < 0x80 then (b, 1)
    else if b < 0xE0 && |bytes| >= 2 then ((b - 0xC0) * 64 + bytes[1] - 0x80, 2)
    else if b < 0xF0 && |bytes| >= 3 then ((b - 0xE0) * 4096 + (bytes[1] - 0x80) * 64 + bytes[2] - 0x80, 3)
    else if |bytes| >= 4 then
      ((b - 0xF0) * 262144 + (bytes[1] - 0x80) * 4096 + (bytes[2] - 0x80) * 64 + bytes[3] - 0x80, 4)
    else (0, 1)
  }

  lemma FirstCodeRoundTrip(c: char, rest: seq<Byte>)
    ensures FirstCode(CharBytes(c) + rest) == (c as int, |CharBytes(c)|)
  {
    var n := c as int;
    assert n < 0x110000;
    assert n == n / 64 * 64 + n % 64;
    assert n / 64 == n / 64 / 64 * 64 + n / 64 % 64 && n / 64 / 64 == n / 4096;
    assert n / 4096 == n / 4096 / 64 * 64 + n / 4096 % 64 && n / 4096 / 64 == n / 262144;
  }

  /** Different texts have different bytes, and so different encodings. */
  lemma {:induction false} BytesTellTextsApart(a: string, b: string)
    requires Bytes(a) == Bytes(b)
    ensures a == b
  {
    if a == "" || b == "" {
      assert a != "" ==> Bytes(a) != [];
      assert b != "" ==> Bytes(b) != [];
    } else {
      FirstCodeRoundTrip(a[0], Bytes(a[1..]));
      FirstCodeRoundTrip(b[0], Bytes(b[1..]));
      assert a[0] == b[0];
      assert Bytes(a)[|CharBytes(a[0])|..] == Bytes(a[1..]);
      assert Bytes(b)[|CharBytes(b[0])|..] == Bytes(b[1..]);
      BytesTellTextsApart(a[1..], b[1..]);
      assert a == [a[0]] + a[1..] && b == [b[0]] + b[1..];
    }
  }

  /** The encoding is decodable: it keeps the bytes of the text, and these the text. */
  lemma EncodingTellsTextsApart(a: string, b: string)
    ensures DecodeBytes(EncodeRfc3986(a)) == Bytes(a)
    ensures EncodeRfc3986(a) == EncodeRfc3986(b) <==> a == b
  {
    EncodesBytes(a);
    EncodesBytes(b);
    DecodesBytes(Bytes(a));
    DecodesBytes(Bytes(b));
    if EncodeRfc3986(a) == EncodeRfc3986(b) {
      BytesTellTextsApart(a, b);
    }
  }

  lemma EncodingIsEncoded(s: string)
    ensures IsEncoded(EncodeRfc3986(s))
  {
    EncodesBytes(s);
    EncodedBytesAreEncoded(Bytes(s));
  }

  // ---------- Single characters ----------

  /** The unreserved characters, and no others, stand for themselves. */
  lemma UnreservedStay(c: char)
    ensures var n := c as int;
      EncodeRfc3986([c]) == [c] <==>
        48 <= n <= 57 || 65 <= n <= 90 || 97 <= n <= 122 || n == 45 || n == 46 || n == 95 || n == 126
  {
    EncodesBytes([c]);
    EncodedChar(c);
    assert [c][1..] == "" && Bytes([c]) == CharBytes(c) by {
      assert Bytes("") == [];
    }
    if !IsUnreserved(c) {
      TriplesAreLonger(CharBytes(c));
    }
  }

  lemma TriplesAreLonger(bytes: seq<Byte>)
    requires bytes != []
    ensures |Triples(bytes)| >= 3
  {}

  /** The bytes of a character are those of section 3 of RFC 3629. */
  lemma Utf8(c: char)
    ensures var n: int, b: seq<int> := c as int, CharBytes(c);
      && (forall i | 1 <= i < |b| :: 0x80 <= b[i] <= 0xBF)
      && (n <= 0x7F ==> b == [n])
      && (0x80 <= n <= 0x7FF ==> |b| == 2 && 0xC2 <= b[0] <= 0xDF && n == (b[0] - 0xC0) * 64 + (b[1] - 0x80))
      && (0x800 <= n <= 0xFFFF ==>
            |b| == 3 && 0xE0 <= b[0] <= 0xEF && n == (b[0] - 0xE0) * 4096 + (b[1] - 0x80) * 64 + (b[2] - 0x80))
      && (0x10000 <= n ==>
            && |b| == 4 && 0xF0 <= b[0] <= 0xF4
            && n == (b[0] - 0xF0) * 262144 + (b[1] - 0x80) * 4096 + (b[2] - 0x80) * 64 + (b[3] - 0x80))
  {
    var n := c as int;
    assert n < 0x110000;
    assert n == n / 64 * 64 + n % 64;
    assert n / 64 == n / 64 / 64 * 64 + n / 64 % 64 && n / 64 / 64 == n / 4096;
    assert n / 4096 == n / 4096 / 64 * 64 + n / 4096 % 64 && n / 4096 / 64 == n / 262144;
  }

  /** The two digits of a triple are the byte, written in base 16. */
  lemma TripleIsHex(b: Byte)
    ensures var t := Triple(b); |t| == 3 && t[0] == '%'
    ensures forall i | 1 <= i < 3 :: var n := Triple(b)[i] as int; 48 <= n <= 57 || 65 <= n <= 70
    ensures HexValue(Triple(b)[1]) * 16 + HexValue(Triple(b)[2]) == b
  {
    HexRoundTrip(b / 16);
    HexRoundTrip(b % 16);
  }
}
