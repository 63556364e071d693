/**
  encodeURIComponent and decodeURIComponent over UTF-8 bytes (percent-encoding of section 2.1 of RFC 3986).
  A string is a sequence of Unicode scalar values.
 */
module UriCodec {
  import opened Prelude

  predicate Unreserved(c: char) {
    'A' <= c <= 'Z' || 'a' <= c <= 'z' || '0' <= c <= '9' || c in "-_.!~*'()"
  }

  function HexDigit(n: int): char
    requires 0 <= n < 16
  {
    if n < 10 then ('0' as int + n) as char else ('A' as int + n - 10) as char
  }

  function HexValue(c: char): Option<int> {
    if '0' <= c <= '9' then Some(c as int - '0' as int)
    else if 'A' <= c <= 'F' then Some(c as int - 'A' as int + 10)
    else if 'a' <= c <= 'f' then Some(c as int - 'a' as int + 10)
    else None
  }

  /** One byte as `%HH`. */
  function Escape(b: int): (r: string)
    requires 0 <= b < 256
    ensures |r| == 3
  {
    ['%', HexDigit(b / 16), HexDigit(b % 16)]
  }

  function Escapes(bytes: seq<int>): (r: string)
    requires forall i :: 0 <= i < |bytes| ==> 0 <= bytes[i] < 256
    ensures |r| == 3 * |bytes|
  {
    if bytes == [] then "" else Escape(bytes[0]) + Escapes(bytes[1..])
  }

  function Utf8(c: char): (r: seq<int>)
    ensures forall i :: 0 <= i < |r| ==> 0 <= r[i] < 256
  {
    var n := c as int;
    if n < 0x80 then [n]
    else if n < 0x800 then [0xC0 + n / 64, 0x80 + n % 64]
    else if n < 0x10000 then [0xE0 + n / 4096, 0x80 + n / 64 % 64, 0x80 + n % 64]
    else [0xF0 + n / 262144, 0x80 + n / 4096 % 64, 0x80 + n / 64 % 64, 0x80 + n % 64]
  }

  function EncodeChar(c: char): string {
    if Unreserved(c) then [c] else Escapes(Utf8(c))
  }

  function Encode(s: string): string {
    if s == "" then "" else EncodeChar(s[0]) + Encode(s[1..])
  }

  /** The byte escaped at position `i`, if there is one. */
  function ByteAt(s: string, i: nat): Option<int> {
    if i + 2 < |s| && s[i] == '%' && HexValue(s[i + 1]).Some? && HexValue(s[i + 2]).Some?
    then Some(16 * HexValue(s[i + 1]).value + HexValue(s[i + 2]).value)
    else None
  }

  /** The six payload bits of the continuation byte escaped at position `i`. */
  function ContinuationAt(s: string, i: nat): Option<int> {
    var b := ByteAt(s, i);
    if b.Some? && 0x80 <= b.value < 0xC0 then Some(b.value - 0x80) else None
  }

  /** A code point of the right length for its encoding, and a scalar value. */
  function Scalar(n: int, low: nat): Option<char> {
    if low <= n < 0xD800 || (low <= n && 0xE000 <= n < 0x110000) then Some(n as char) else None
  }

  /** The first character of a non-empty input and how much of the input it takes; None is a URIError. */
  function DecodeChar(s: string): (r: Option<(char, nat)>)
    requires s != ""
    ensures r.Some? ==> 0 < r.value.1 <= |s|
  {
    if s[0] != '%' then Some((s[0], 1))
    else
      var b := ByteAt(s, 0);
      if b.None? then None
      else if b.value < 0x80 then Some((b.value as char, 3))
      else
        var c1, c2, c3 := ContinuationAt(s, 3), ContinuationAt(s, 6), ContinuationAt(s, 9);
        if 0xC0 <= b.value < 0xE0 && c1.Some? then
          Sized(Scalar((b.value - 0xC0) * 64 + c1.value, 0x80), 6)
        else if 0xE0 <= b.value < 0xF0 && c1.Some? && c2.Some? then
          Sized(Scalar((b.value - 0xE0) * 4096 + c1.value * 64 + c2.value, 0x800), 9)
        else if 0xF0 <= b.value < 0xF8 && c1.Some? && c2.Some? && c3.Some? then
          Sized(Scalar((b.value - 0xF0) * 262144 + c1.value * 4096 + c2.value * 64 + c3.value, 0x10000), 12)
        else None
  }

  function Sized(c: Option<char>, size: nat): Option<(char, nat)> {
    if c.Some? then Some((c.value, size)) else None
  }

  function Decode(s: string): Option<string> {
    if s == "" then Some("")
    else
      var c := DecodeChar(s);
      if c.None? then None
      else
        var rest := Decode(s[c.value.1..]);
        if rest.None? then None else Some([c.value.0] + rest.value)
  }

  lemma EscapeRead(b: int, t: string)
    requires 0 <= b < 256
    ensures ByteAt(Escape(b) + t, 0) == Some(b)
  {
  }

  /** Every byte of an escaped list is read back at its place. */
  lemma {:induction false} EscapesRead(bytes: seq<int>, t: string, k: nat)
    requires forall i :: 0 <= i < |bytes| ==> 0 <= bytes[i] < 256
    requires k < |bytes|
    ensures ByteAt(Escapes(bytes) + t, 3 * k) == Some(bytes[k])
  {
    var first, rest := Escape(bytes[0]), Escapes(bytes[1..]) + t;
    assert Escapes(bytes) + t == first + rest;
    if k == 0 {
      EscapeRead(bytes[0], rest);
    } else {
      EscapesRead(bytes[1..], t, k - 1);
      ByteShifts(first, rest, 3 * (k - 1));
    }
  }

  lemma ByteShifts(a: string, s: string, i: nat)
    ensures ByteAt(a + s, |a| + i) == ByteAt(s, i)
  {
  }

  /** The payload bits put together again. */
  lemma Payload(n: nat)
    ensures n == (n / 64) * 64 + n % 64
    ensures n == (n / 4096) * 4096 + (n / 64 % 64) * 64 + n % 64
    ensures n == (n / 262144) * 262144 + (n / 4096 % 64) * 4096 + (n / 64 % 64) * 64 + n % 64
  {
    var q := n / 64;
    assert q / 64 == n / 4096 && q / 4096 == n / 262144;
    assert q == (q / 64) * 64 + q % 64;
    assert q / 64 == (q / 64 / 64) * 64 + q / 64 % 64;
  }

  lemma DecodeEscaped(c: char, s: string)
    requires |s| >= 3 * |Utf8(c)| && s[0] == '%'
    requires forall k :: 0 <= k < |Utf8(c)| ==> ByteAt(s, 3 * k) == Some(Utf8(c)[k])
    ensures DecodeChar(s) == Some((c, 3 * |Utf8(c)|))
  {
    var n, bytes := c as int, Utf8(c);
    assert ByteAt(s, 3 * 0) == Some(bytes[0]);
    if n < 0x80 {
    } else if n < 0x800 {
      assert ByteAt(s, 3 * 1) == Some(bytes[1]);
      Payload(n);
    } else if n < 0x10000 {
      assert ByteAt(s, 3 * 1) == Some(bytes[1]) && ByteAt(s, 3 * 2) == Some(bytes[2]);
      Payload(n);
    } else {
      DecodeFour(c, s);
    }
  }

  lemma DecodeFour(c: char, s: string)
    requires 0x10000 <= c as int && |s| >= 12 && s[0] == '%'
    requires forall k :: 0 <= k < 4 ==> ByteAt(s, 3 * k) == Some(Utf8(c)[k])
    ensures DecodeChar(s) == Some((c, 12))
  {
    var n, bytes := c as int, Utf8(c);
    assert ByteAt(s, 3 * 0) == Some(0xF0 + n / 262144) && ByteAt(s, 3 * 1) == Some(0x80 + n / 4096 % 64);
    assert ByteAt(s, 3 * 2) == Some(0x80 + n / 64 % 64) && ByteAt(s, 3 * 3) == Some(0x80 + n % 64);
    Payload(n);
  }

  /** Both cases of a hexadecimal digit are read. */
  lemma HexDigitsRead(n: int)
    requires 0 <= n < 16
    ensures HexValue("0123456789ABCDEF"[n]) == HexValue("0123456789abcdef"[n]) == Some(n)
  {
  }

  lemma Digits64(a: nat, b: nat, c: nat, d: nat)
    requires b < 64 && c < 64 && d < 64
    ensures (a * 64 + b) / 64 == a && (a * 64 + b) % 64 == b
    ensures var n := a * 4096 + b * 64 + c; n / 4096 == a && n / 64 % 64 == b && n % 64 == c
    ensures var n := a * 262144 + b * 4096 + c * 64 + d;
            n / 262144 == a && n / 4096 % 64 == b && n / 64 % 64 == c && n % 64 == d
  {
    assert a * 4096 + b * 64 + c == 64 * (64 * a + b) + c;
    assert a * 262144 + b * 4096 + c * 64 + d == 64 * (64 * (64 * a + b) + c) + d;
  }

  /** Each byte of a two-byte, three-byte or four-byte form is the one `Utf8` gives. */
  ghost predicate ReadAs(s: string, c: char, size: nat) {
    size == 3 * |Utf8(c)| && forall k :: 0 <= k < |Utf8(c)| ==> ByteAt(s, 3 * k) == Some(Utf8(c)[k])
  }

  lemma TwoBytesRead(s: string, c: char, a: nat, b: nat)
    requires b < 64 && c as int == a * 64 + b && 0x80 <= c as int < 0x800
    requires ByteAt(s, 0) == Some(0xC0 + a) && ByteAt(s, 3) == Some(0x80 + b)
    ensures ReadAs(s, c, 6)
  {
    Digits64(a, b, 0, 0);
    assert Utf8(c) == [0xC0 + a, 0x80 + b];
  }

  lemma ThreeBytesRead(s: string, ch: char, a: nat, b: nat, c: nat)
    requires b < 64 && c < 64 && ch as int == a * 4096 + b * 64 + c && 0x800 <= ch as int < 0x10000
    requires ByteAt(s, 0) == Some(0xE0 + a) && ByteAt(s, 3) == Some(0x80 + b) && ByteAt(s, 6) == Some(0x80 + c)
    ensures ReadAs(s, ch, 9)
  {
    Digits64(a, b, c, 0);
    assert Utf8(ch) == [0xE0 + a, 0x80 + b, 0x80 + c];
  }

  lemma FourBytesRead(s: string, ch: char, a: nat, b: nat, c: nat, d: nat)
    requires b < 64 && c < 64 && d < 64 && ch as int == a * 262144 + b * 4096 + c * 64 + d && 0x10000 <= ch as int
    requires ByteAt(s, 0) == Some(0xF0 + a) && ByteAt(s, 3) == Some(0x80 + b) && ByteAt(s, 6) == Some(0x80 + c)
    requires ByteAt(s, 9) == Some(0x80 + d)
    ensures ReadAs(s, ch, 12)
  {
    Digits64(a, b, c, d);
    assert Utf8(ch) == [0xF0 + a, 0x80 + b, 0x80 + c, 0x80 + d];
  }

  /** Nothing but the shortest UTF-8 form of a character is accepted for it. */
  lemma DecodedIsUtf8(s: string)
    requires s != "" && s[0] == '%' && DecodeChar(s).Some?
    ensures ReadAs(s, DecodeChar(s).value.0, DecodeChar(s).value.1)
  {
    var (c, size) := DecodeChar(s).value;
    var first := ByteAt(s, 0).value;
    if size == 6 {
      TwoBytesRead(s, c, first - 0xC0, ContinuationAt(s, 3).value);
    } else if size == 9 && first >= 0xE0 {
      ThreeBytesRead(s, c, first - 0xE0, ContinuationAt(s, 3).value, ContinuationAt(s, 6).value);
    } else if size == 12 {
      FourBytesRead(s, c, first - 0xF0, ContinuationAt(s, 3).value, ContinuationAt(s, 6).value,
                    ContinuationAt(s, 9).value);
    }
  }

  /** A character of each length. */
  lemma Utf8Examples()
    ensures Utf8(' ') == [0x20] && Utf8('\U{E9}') == [0xC3, 0xA9] && Utf8('\U{20AC}') == [0xE2, 0x82, 0xAC]
    ensures Utf8('\U{1F600}') == [0xF0, 0x9F, 0x98, 0x80] && Escape(0xC3) == "%C3"
  {
  }

  /** Decoding reads back one encoded character, whatever follows. */
  lemma DecodeEncodedChar(c: char, t: string)
    ensures EncodeChar(c) != ""
    ensures DecodeChar(EncodeChar(c) + t) == Some((c, |EncodeChar(c)|))
  {
    if !Unreserved(c) {
      var s := Escapes(Utf8(c)) + t;
      forall k | 0 <= k < |Utf8(c)| ensures ByteAt(s, 3 * k) == Some(Utf8(c)[k]) {
        EscapesRead(Utf8(c), t, k);
      }
      assert ByteAt(s, 3 * 0).Some?;
      DecodeEscaped(c, s);
    }
  }

  /** decodeURIComponent inverts encodeURIComponent. */
  lemma {:induction false} RoundTrip(s: string)
    ensures Decode(Encode(s)) == Some(s)
  {
    if s != "" {
      var head, rest := EncodeChar(s[0]), Encode(s[1..]);
      RoundTrip(s[1..]);
      DecodeEncodedChar(s[0], rest);
      var encoded := head + rest;
      assert encoded[|head|..] == rest;
      assert Decode(encoded) == Some([s[0]] + s[1..]);
      assert s == [s[0]] + s[1..];
    }
  }

  predicate Safe(c: char) {
    Unreserved(c) || c == '%'
  }

  /** Hexadecimal digits are upper case. */
  lemma {:induction false} EscapesSafe(bytes: seq<int>)
    requires forall i :: 0 <= i < |bytes| ==> 0 <= bytes[i] < 256
    ensures forall c :: c in Escapes(bytes) ==> c == '%' || '0' <= c <= '9' || 'A' <= c <= 'F'
  {
    if bytes != [] {
      EscapeSafe(bytes[0]);
      EscapesSafe(bytes[1..]);
    }
  }

  lemma EscapeSafe(b: int)
    requires 0 <= b < 256
    ensures forall c :: c in Escape(b) ==> c == '%' || '0' <= c <= '9' || 'A' <= c <= 'F'
  {
  }

  /** Letters, digits and nine marks are not escaped; every other character is, in upper case. */
  lemma EscapedIff(c: char)
    ensures EncodeChar(c) == [c] <==>
            'A' <= c <= 'Z' || 'a' <= c <= 'z' || '0' <= c <= '9' || c in ['-', '_', '.', '!', '~', '*', '\'', '(', ')']
    ensures EncodeChar(c) != [c] ==>
              EncodeChar(c)[0] == '%' &&
              forall d :: d in EncodeChar(c) ==> d == '%' || '0' <= d <= '9' || 'A' <= d <= 'F'
  {
    if !Unreserved(c) {
      EscapesSafe(Utf8(c));
    }
  }

  /** Encoded text consists of unreserved characters and percent signs: no delimiter survives. */
  lemma {:induction false} EncodedIsSafe(s: string)
    ensures forall c :: c in Encode(s) ==> Safe(c)
    ensures Encode(s) == "" <==> s == ""
  {
    if s != "" {
      EncodedIsSafe(s[1..]);
      DecodeEncodedChar(s[0], "");
      if !Unreserved(s[0]) { EscapesSafe(Utf8(s[0])); }
    }
  }

  /** Text without escapes decodes to itself. */
  lemma {:induction false} PlainDecodes(s: string)
    requires '%' !in s
    ensures Decode(s) == Some(s)
  {
    if s != "" {
      PlainDecodes(s[1..]);
      assert s == [s[0]] + s[1..];
    }
  }
}
