/**
 * Percent-encoding as the routing code uses it: `encodeURIComponent`
 * (ECMAScript) and the byte serializer of the application/x-www-form-urlencoded
 * format that `URLSearchParams` uses. The routing code never decodes;
 * `decodeURIComponent` is modelled as the reference inverse against which
 * both encodings are shown to be readable back.
 * Characters are Unicode scalar values; each is encoded as its UTF-8 bytes
 * (RFC 3629), each byte as a "%HH" triplet with upper-case hex digits
 * (section 2.1 of RFC 3986).
 */
module UriEncoding {
  import opened Wrappers

  predicate IsScalar(n: int) {
    0 <= n < 0xD800 || 0xE000 <= n < 0x11_0000
  }

  predicate IsByteSeq(bytes: seq<nat>) {
    forall k :: 0 <= k < |bytes| ==> bytes[k] < 256
  }

  /** The UTF-8 encoding of one character (section 3 of RFC 3629). */
  function Utf8(c: char): (bytes: seq<nat>)
    ensures 1 <= |bytes| <= 4 && IsByteSeq(bytes)
  {
    var n := c as int;
    if n < 0x80 then [n]
    else if n < 0x800 then [0xC0 + n / 64, 0x80 + n % 64]
    else if n < 0x1_0000 then [0xE0 + n / 4096, 0x80 + (n / 64) % 64, 0x80 + n % 64]
    else [0xF0 + n / 262144, 0x80 + (n / 4096) % 64, 0x80 + (n / 64) % 64, 0x80 + n % 64]
  }

  /** The length of a UTF-8 sequence, read off its lead byte. */
  function Utf8Length(lead: nat): Option<nat> {
    if lead < 0x80 then Some(1)
    else if 0xC0 <= lead < 0xE0 then Some(2)
    else if 0xE0 <= lead < 0xF0 then Some(3)
    else if 0xF0 <= lead < 0xF8 then Some(4)
    else None
  }

  /** The code point a UTF-8 sequence of one to four bytes stands for. */
  function Utf8Value(bytes: seq<nat>): int
    requires 1 <= |bytes| <= 4
  {
    var b: seq<int> := bytes;
    if |b| == 1 then b[0]
    else if |b| == 2 then (b[0] - 0xC0) * 64 + (b[1] - 0x80)
    else if |b| == 3 then (b[0] - 0xE0) * 4096 + (b[1] - 0x80) * 64 + (b[2] - 0x80)
    else (b[0] - 0xF0) * 262144 + (b[1] - 0x80) * 4096 + (b[2] - 0x80) * 64 + (b[3] - 0x80)
  }

  /** The lead byte announces the length of the encoding, and the bytes decode to the character. */
  lemma Utf8RoundTrip(c: char)
    ensures Utf8Length(Utf8(c)[0]) == Some(|Utf8(c)|)
    ensures Utf8Value(Utf8(c)) == c as int
  {
    var n := c as int;
    if n < 0x80 {
    } else if n < 0x800 {
      SplitSix(n);
      assert Utf8(c) == [0xC0 + n / 64, 0x80 + n % 64];
    } else if n < 0x1_0000 {
      SplitSix(n);
      SplitSix(n / 64);
      assert n / 4096 == (n / 64) / 64;
      assert Utf8(c) == [0xE0 + n / 4096, 0x80 + (n / 64) % 64, 0x80 + n % 64];
    } else {
      SplitSix(n);
      SplitSix(n / 64);
      SplitSix(n / 4096);
      assert n / 4096 == (n / 64) / 64;
      assert n / 262144 == (n / 4096) / 64;
      assert Utf8(c) == [0xF0 + n / 262144, 0x80 + (n / 4096) % 64, 0x80 + (n / 64) % 64, 0x80 + n % 64];
    }
  }

  /** Six low bits and the rest. */
  lemma SplitSix(n: nat)
    ensures n == (n / 64) * 64 + n % 64 && 0 <= n % 64 < 64
  {
  }

  predicate IsUpperHexDigit(c: char) {
    '0' <= c <= '9' || 'A' <= c <= 'F'
  }

  function HexDigit(d: nat): (c: char)
    requires d < 16
    ensures IsUpperHexDigit(c)
  {
    if d < 10 then ('0' as int + d) as char else ('A' as int + d - 10) as char
  }

  /** The value of a hex digit of either case. */
  function HexValue(c: char): Option<nat> {
    if '0' <= c <= '9' then Some(c as int - '0' as int)
    else if 'A' <= c <= 'F' then Some(c as int - 'A' as int + 10)
    else if 'a' <= c <= 'f' then Some(c as int - 'a' as int + 10)
    else None
  }

  lemma HexRoundTrip(d: nat)
    requires d < 16
    ensures HexValue(HexDigit(d)) == Some(d)
  {
  }

  /** "%HH" for one byte. */
  function Triplet(b: nat): string
    requires b < 256
  {
    ['%', HexDigit(b / 16), HexDigit(b % 16)]
  }

  /** Every byte as a "%HH" triplet: three characters per byte, each a '%' or an upper-case hex digit. */
  function PercentEncode(bytes: seq<nat>): (r: string)
    requires IsByteSeq(bytes)
    ensures |r| == 3 * |bytes|
    ensures forall i :: 0 <= i < |r| ==> r[i] == '%' || IsUpperHexDigit(r[i])
  {
    if bytes == [] then [] else Triplet(bytes[0]) + PercentEncode(bytes[1..])
  }

  /** Reads `n` "%HH" triplets from the front of `t`. */
  function ReadBytes(t: string, n: nat): Option<seq<nat>> {
    if n == 0 then Some([])
    else if |t| < 3 || t[0] != '%' then None
    else
      match (HexValue(t[1]), HexValue(t[2]))
      case (Some(hi), Some(lo)) =>
        (match ReadBytes(t[3..], n - 1)
         case Some(rest) => Some([hi * 16 + lo] + rest)
         case None => None)
      case _ => None
  }

  lemma {:induction false} ReadPercentEncoded(bytes: seq<nat>, rest: string)
    requires IsByteSeq(bytes)
    ensures ReadBytes(PercentEncode(bytes) + rest, |bytes|) == Some(bytes)
  {
    if bytes != [] {
      var t := PercentEncode(bytes) + rest;
      var b := bytes[0];
      HexRoundTrip(b / 16);
      HexRoundTrip(b % 16);
      assert t[..3] == Triplet(b);
      assert t[3..] == PercentEncode(bytes[1..]) + rest;
      ReadPercentEncoded(bytes[1..], rest);
      assert bytes == [b] + bytes[1..];
    }
  }

  predicate IsAsciiAlphanumeric(c: char) {
    '0' <= c <= '9' || 'A' <= c <= 'Z' || 'a' <= c <= 'z'
  }

  /** The characters `encodeURIComponent` leaves as they are. */
  predicate IsComponentSafe(c: char) {
    IsAsciiAlphanumeric(c) || c in "-_.!~*'()"
  }

  function EncodeChar(c: char): string {
    if IsComponentSafe(c) then [c] else PercentEncode(Utf8(c))
  }

  /**
   * `encodeURIComponent(s)`. Every output character is a '%', an upper-case
   * hex digit, or a safe character copied from the input; in particular the
   * output never holds a '/', and holds a '~' only when the input does.
   */
  function EncodeURIComponent(s: string): (r: string)
    ensures forall i :: 0 <= i < |r| ==> r[i] == '%' || IsUpperHexDigit(r[i]) || (IsComponentSafe(r[i]) && r[i] in s)
  {
    if s == [] then []
    else
      var head := EncodeChar(s[0]);
      var tail := EncodeURIComponent(s[1..]);
      assert forall i :: 0 <= i < |tail| && tail[i] in s[1..] ==> tail[i] in s;
      head + tail
  }

  /** A character that is neither '%' nor a hex digit appears in the encoding only if it appears in the input. */
  lemma EncodeOmits(s: string, c: char)
    requires c != '%' && !IsUpperHexDigit(c)
    requires c in s ==> !IsComponentSafe(c)
    ensures c !in EncodeURIComponent(s)
  {
    var r := EncodeURIComponent(s);
    forall i | 0 <= i < |r| ensures r[i] != c {
      assert r[i] == '%' || IsUpperHexDigit(r[i]) || (IsComponentSafe(r[i]) && r[i] in s);
    }
  }

  /** `bytes` are the UTF-8 encoding of a scalar value, and the shortest one. */
  predicate IsUtf8Of(bytes: seq<nat>) {
    1 <= |bytes| <= 4 && IsScalar(Utf8Value(bytes)) && Utf8(Utf8Value(bytes) as char) == bytes
  }

  /**
   * A reference inverse of `EncodeURIComponent`: the source never decodes,
   * and this function serves to show its encodings can be read back. It is
   * `decodeURIComponent(t)`, with `None` for its URIError: an escape that is
   * not "%HH", a lead byte that starts no UTF-8 sequence, too few escapes for
   * the sequence, or bytes that are not the UTF-8 encoding of a scalar value
   * (a continuation byte outside 0x80-0xBF, an overlong form, a surrogate,
   * a value past U+10FFFF).
   */
  function DecodeURIComponent(t: string): (r: Option<string>)
    ensures r.Some? ==> |r.value| <= |t|
    ensures '%' !in t ==> r == Some(t)
    decreases |t|
  {
    if t == [] then Some([])
    else if t[0] != '%' then
      assert t == [t[0]] + t[1..];
      match DecodeURIComponent(t[1..])
      case Some(r) => Some([t[0]] + r)
      case None => None
    else
      match ReadBytes(t, 1)
      case None => None
      case Some(lead) =>
        match Utf8Length(lead[0])
        case None => None
        case Some(n) =>
          match ReadBytes(t, n)
          case None => None
          case Some(bytes) =>
            if |bytes| != n || |t| < 3 * n || !IsUtf8Of(bytes) then None
            else
              match DecodeURIComponent(t[3 * n..])
              case Some(r) => Some([Utf8Value(bytes) as char] + r)
              case None => None
  }

  lemma ReadBytesLength(t: string, n: nat)
    requires ReadBytes(t, n).Some?
    ensures |ReadBytes(t, n).value| == n && 3 * n <= |t|
  {
  }

  /** At an escape, the decoder reads one whole UTF-8 sequence and goes on after it. */
  lemma DecodeAtEscape(bytes: seq<nat>, rest: string)
    requires 1 <= |bytes| <= 4 && IsByteSeq(bytes)
    requires Utf8Length(bytes[0]) == Some(|bytes|) && IsUtf8Of(bytes)
    ensures DecodeURIComponent(PercentEncode(bytes) + rest)
         == (match DecodeURIComponent(rest) case Some(r) => Some([Utf8Value(bytes) as char] + r) case None => None)
  {
    var t := PercentEncode(bytes) + rest;
    var n := |bytes|;
    assert ReadBytes(t, n) == Some(bytes) by {
      ReadPercentEncoded(bytes, rest);
    }
    ReadLeadByte(bytes, rest);
    assert t[3 * n..] == rest;
    DecodeEscapeStep(t, bytes);
  }

  /** The first escape of a percent-encoding reads back as the first byte. */
  lemma {:induction false} ReadLeadByte(bytes: seq<nat>, rest: string)
    requires 1 <= |bytes| && IsByteSeq(bytes)
    ensures var t := PercentEncode(bytes) + rest;
      ReadBytes(t, 1) == Some(bytes[..1]) && t[0] == '%' && 3 * |bytes| <= |t|
  {
    var t := PercentEncode(bytes) + rest;
    var tail := PercentEncode(bytes[1..]) + rest;
    assert t[0] == '%' && 3 * |bytes| <= |t| by {
      assert t == Triplet(bytes[0]) + tail;
    }
    assert ReadBytes(t, 1) == Some(bytes[..1]) by {
      assert t == PercentEncode(bytes[..1]) + tail by {
        assert bytes == bytes[..1] + bytes[1..];
      }
      ReadPercentEncoded(bytes[..1], tail);
    }
  }

  /** One step of decoding at a '%': the escapes read as a UTF-8 sequence give its character. */
  lemma {:induction false} DecodeEscapeStep(t: string, bytes: seq<nat>)
    requires 1 <= |bytes| <= 4 && 3 * |bytes| <= |t| && t[0] == '%'
    requires ReadBytes(t, 1) == Some(bytes[..1]) && ReadBytes(t, |bytes|) == Some(bytes)
    requires Utf8Length(bytes[0]) == Some(|bytes|) && IsUtf8Of(bytes)
    ensures DecodeURIComponent(t)
         == (match DecodeURIComponent(t[3 * |bytes|..]) case Some(r) => Some([Utf8Value(bytes) as char] + r) case None => None)
  {
    assert bytes[..1][0] == bytes[0];
  }

  /** Decoding the encoding of one character consumes exactly that encoding. */
  lemma DecodeEncodeChar(c: char, rest: string)
    ensures DecodeURIComponent(EncodeChar(c) + rest)
         == (match DecodeURIComponent(rest) case Some(r) => Some([c] + r) case None => None)
  {
    if IsComponentSafe(c) {
      assert (EncodeChar(c) + rest)[1..] == rest;
    } else {
      Utf8RoundTrip(c);
      DecodeAtEscape(Utf8(c), rest);
    }
  }

  /** The reference inverse `decodeURIComponent` undoes `encodeURIComponent`. */
  lemma {:induction false} DecodeEncode(s: string)
    ensures DecodeURIComponent(EncodeURIComponent(s)) == Some(s)
  {
    if s != [] {
      DecodeEncode(s[1..]);
      DecodeEncodeChar(s[0], EncodeURIComponent(s[1..]));
      assert s == [s[0]] + s[1..];
    }
  }

  /** An overlong encoding is refused: "%C0%80" would stand for U+0000 in two bytes. */
  lemma DecodeRejectsOverlong()
    ensures DecodeURIComponent("%C0%80") == None
  {
    var t := "%C0%80";
    ReadPercentEncoded([0xC0, 0x80], []);
    ReadPercentEncoded([0xC0], PercentEncode([0x80]));
    assert t == PercentEncode([0xC0, 0x80]) + [];
    assert t == PercentEncode([0xC0]) + PercentEncode([0x80]);
    assert Utf8Value([0xC0, 0x80]) == 0;
    assert Utf8(0 as char) == [0];
  }

  /** A continuation byte outside 0x80-0xBF is refused: "%C3%41" has 0x41 where 10xxxxxx is required. */
  lemma DecodeRejectsBadContinuation()
    ensures DecodeURIComponent("%C3%41") == None
  {
    var t := "%C3%41";
    ReadPercentEncoded([0xC3, 0x41], []);
    ReadPercentEncoded([0xC3], PercentEncode([0x41]));
    assert t == PercentEncode([0xC3, 0x41]) + [];
    assert t == PercentEncode([0xC3]) + PercentEncode([0x41]);
    assert Utf8Value([0xC3, 0x41]) == 0x81;
    assert Utf8(0x81 as char) == [0xC2, 0x81];
  }

  /** `encodeURIComponent` is injective: distinct strings never share an encoding. */
  lemma EncodeInjective(s1: string, s2: string)
    requires EncodeURIComponent(s1) == EncodeURIComponent(s2)
    ensures s1 == s2
  {
    DecodeEncode(s1);
    DecodeEncode(s2);
  }

  /** The characters the form-urlencoded serializer leaves as they are. */
  predicate IsFormSafe(c: char) {
    IsAsciiAlphanumeric(c) || c in "*-._"
  }

  /** A character the form-urlencoded serializer can produce. */
  predicate IsFormOutput(c: char) {
    IsFormSafe(c) || c == '+' || c == '%'
  }

  /** The form-urlencoded parser's first step: every '+' stands for a space. */
  function PlusToSpace(t: string): (r: string)
    ensures |r| == |t|
    ensures forall i :: 0 <= i < |t| ==> r[i] == if t[i] == '+' then ' ' else t[i]
  {
    seq(|t|, i requires 0 <= i < |t| => if t[i] == '+' then ' ' else t[i])
  }

  /**
   * Reads back what the form-urlencoded serializer writes: '+' as a space,
   * then the "%HH" escapes as UTF-8. (The WHATWG parser keeps a malformed
   * escape as text where this gives `None`; the serializer never writes one.)
   */
  function FormUrlDecode(t: string): Option<string> {
    DecodeURIComponent(PlusToSpace(t))
  }

  function FormEncodeChar(c: char): string {
    if IsFormSafe(c) then [c] else if c == ' ' then "+" else PercentEncode(Utf8(c))
  }

  /**
   * The application/x-www-form-urlencoded byte serializer of the WHATWG URL
   * Standard: its output is made of form-safe characters, '+' and "%HH"
   * triplets only, so it never holds '&', '=', '/' or '~'.
   */
  function FormUrlEncode(s: string): (r: string)
    ensures forall i :: 0 <= i < |r| ==> IsFormOutput(r[i])
  {
    if s == [] then [] else FormEncodeChar(s[0]) + FormUrlEncode(s[1..])
  }

  lemma PlusToSpaceAppend(a: string, b: string)
    ensures PlusToSpace(a + b) == PlusToSpace(a) + PlusToSpace(b)
  {
  }

  /** Decoding the form encoding of one character consumes exactly that encoding. */
  lemma FormDecodeChar(c: char, rest: string)
    ensures DecodeURIComponent(PlusToSpace(FormEncodeChar(c)) + rest)
         == (match DecodeURIComponent(rest) case Some(r) => Some([c] + r) case None => None)
  {
    if IsFormSafe(c) || c == ' ' {
      assert PlusToSpace(FormEncodeChar(c)) == [c];
      assert ([c] + rest)[1..] == rest;
    } else {
      var e := PercentEncode(Utf8(c));
      assert PlusToSpace(e) == e;
      Utf8RoundTrip(c);
      DecodeAtEscape(Utf8(c), rest);
    }
  }

  /** The form decoder undoes the form-urlencoded serializer. */
  lemma {:induction false} FormDecodeEncode(s: string)
    ensures FormUrlDecode(FormUrlEncode(s)) == Some(s)
  {
    if s != [] {
      FormDecodeEncode(s[1..]);
      PlusToSpaceAppend(FormEncodeChar(s[0]), FormUrlEncode(s[1..]));
      FormDecodeChar(s[0], PlusToSpace(FormUrlEncode(s[1..])));
      assert s == [s[0]] + s[1..];
    }
  }

  /** Distinct strings have distinct form encodings. */
  lemma FormUrlEncodeInjective(s1: string, s2: string)
    requires FormUrlEncode(s1) == FormUrlEncode(s2)
    ensures s1 == s2
  {
    FormDecodeEncode(s1);
    FormDecodeEncode(s2);
  }
}
