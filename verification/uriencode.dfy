/**
 * ECMAScript `encodeURIComponent` and its inverse `decodeURIComponent`: a code point outside
 * the unreserved set is written as the percent-encoded bytes of its UTF-8 form (section 2.1 of
 * RFC 3986, section 3 of RFC 3629). A Dafny `char` is a Unicode scalar value, so the lone
 * surrogates on which `encodeURIComponent` throws cannot occur.
 */
module UriEncode {
  import opened Wrappers

  type Byte = b: int | 0 <= b < 256

  /** The characters `encodeURIComponent` leaves alone: `A-Z a-z 0-9 - _ . ! ~ * ' ( )`. */
  predicate IsUnreserved(c: char) {
    || ('A' <= c <= 'Z') || ('a' <= c <= 'z') || ('0' <= c <= '9')
    || c == '-' || c == '_' || c == '.' || c == '!' || c == '~' || c == '*'
    || c == '\'' || c == '(' || c == ')'
  }

  /** UTF-8 encoding of one code point. */
  function Utf8(c: char): (bs: seq<Byte>)
    ensures 1 <= |bs| <= 4
    ensures |bs| == 1 <==> c as int < 0x80
    ensures |bs| == 1 ==> bs[0] == c as int
  {
    var n := c as int;
    if n < 0x80 then [n]
    else if n < 0x800 then [0xC0 + n / 64, 0x80 + n % 64]
    else if n < 0x10000 then [0xE0 + n / 4096, 0x80 + (n / 64) % 64, 0x80 + n % 64]
    else [0xF0 + n / 262144, 0x80 + (n / 4096) % 64, 0x80 + (n / 64) % 64, 0x80 + n % 64]
  }

  /** UTF-8 encoding of a whole string. */
  function Utf8String(s: string): seq<Byte> {
    if s == "" then [] else Utf8(s[0]) + Utf8String(s[1..])
  }

  function HexDigit(d: nat): (c: char)
    requires d < 16
    ensures '0' <= c <= '9' || 'A' <= c <= 'F'
  {
    "0123456789ABCDEF"[d]
  }

  /** The value of a hexadecimal digit, either case. */
  function HexValue(c: char): Option<nat> {
    if '0' <= c <= '9' then Some(c as int - '0' as int)
    else if 'A' <= c <= 'F' then Some(c as int - 'A' as int + 10)
    else if 'a' <= c <= 'f' then Some(c as int - 'a' as int + 10)
    else None
  }

  /** `%XX` with upper-case hexadecimal digits. */
  function PercentByte(b: Byte): string {
    ['%', HexDigit(b / 16), HexDigit(b % 16)]
  }

  function PercentBytes(bs: seq<Byte>): string {
    if bs == [] then "" else PercentByte(bs[0]) + PercentBytes(bs[1..])
  }

  predicate IsEncodedChar(c: char) { IsUnreserved(c) || c == '%' }

  function EncodeChar(c: char): (r: string)
    ensures forall i :: 0 <= i < |r| ==> IsEncodedChar(r[i])
  {
    if IsUnreserved(c) then [c] else PercentBytesSafe(Utf8(c)); PercentBytes(Utf8(c))
  }

  lemma PercentBytesSafe(bs: seq<Byte>)
    ensures forall i :: 0 <= i < |PercentBytes(bs)| ==> IsEncodedChar(PercentBytes(bs)[i])
  {
  }

  /**
   * `encodeURIComponent`: unreserved characters are kept, everything else is percent-encoded,
   * so the result holds only unreserved characters and `%` (in particular, never a `/`), and a
   * string of unreserved characters comes back unchanged.
   */
  function EncodeComponent(s: string): (r: string)
    ensures forall i :: 0 <= i < |r| ==> IsEncodedChar(r[i])
    ensures (forall i :: 0 <= i < |s| ==> IsUnreserved(s[i])) ==> r == s
  {
    if s == "" then "" else EncodeChar(s[0]) + EncodeComponent(s[1..])
  }

  function PrependBytes(bs: seq<Byte>, rest: Option<seq<Byte>>): Option<seq<Byte>> {
    if rest.Some? then Some(bs + rest.value) else None
  }

  /** The byte sequence a percent-encoded string stands for; `None` for a malformed `%` escape. */
  function PercentDecode(s: string): Option<seq<Byte>> {
    if s == "" then Some([])
    else if s[0] == '%' then
      if |s| < 3 || HexValue(s[1]).None? || HexValue(s[2]).None? then None
      else
        var hi := HexValue(s[1]).value;
        var lo := HexValue(s[2]).value;
        if hi >= 16 || lo >= 16 then None
        else PrependBytes([16 * hi + lo], PercentDecode(s[3..]))
    else PrependBytes(Utf8(s[0]), PercentDecode(s[1..]))
  }

  predicate IsContinuation(b: Byte) { 0x80 <= b < 0xC0 }

  function PrependChar(c: char, rest: Option<string>): Option<string> {
    if rest.Some? then Some([c] + rest.value) else None
  }

  /** Strict UTF-8 decoding: no overlong forms, no surrogates, nothing above U+10FFFF. */
  function Utf8Decode(bs: seq<Byte>): Option<string> {
    if bs == [] then Some("")
    else
      var b: int := bs[0];
      if b < 0x80 then PrependChar(b as char, Utf8Decode(bs[1..]))
      else if 0xC2 <= b < 0xE0 && |bs| >= 2 && IsContinuation(bs[1]) then
        var cp := (b - 0xC0) * 64 + (bs[1] as int - 0x80);
        PrependChar(cp as char, Utf8Decode(bs[2..]))
      else if 0xE0 <= b < 0xF0 && |bs| >= 3 && IsContinuation(bs[1]) && IsContinuation(bs[2]) then
        var cp := (b - 0xE0) * 4096 + (bs[1] as int - 0x80) * 64 + (bs[2] as int - 0x80);
        if cp < 0x800 || 0xD800 <= cp < 0xE000 then None
        else PrependChar(cp as char, Utf8Decode(bs[3..]))
      else if 0xF0 <= b < 0xF5 && |bs| >= 4 && IsContinuation(bs[1]) && IsContinuation(bs[2])
              && IsContinuation(bs[3]) then
        var cp := (b - 0xF0) * 262144 + (bs[1] as int - 0x80) * 4096
                  + (bs[2] as int - 0x80) * 64 + (bs[3] as int - 0x80);
        if cp < 0x10000 || cp >= 0x110000 then None
        else PrependChar(cp as char, Utf8Decode(bs[4..]))
      else None
  }

  /** `decodeURIComponent`: undo the percent escapes, then decode the bytes as UTF-8. */
  function DecodeComponent(s: string): Option<string> {
    var bytes := PercentDecode(s);
    if bytes.Some? then Utf8Decode(bytes.value) else None
  }

  /** `decodeURIComponent` inverts `encodeURIComponent` on every string. */
  lemma {:induction false} EncodeDecodeRoundTrip(s: string)
    ensures DecodeComponent(EncodeComponent(s)) == Some(s)
  {
    EncodePercentDecode(s);
    Utf8RoundTrip(s);
  }

  lemma {:induction false} EncodePercentDecode(s: string)
    ensures PercentDecode(EncodeComponent(s)) == Some(Utf8String(s))
  {
    if s != "" {
      EncodePercentDecode(s[1..]);
      var c := s[0];
      var rest := EncodeComponent(s[1..]);
      if IsUnreserved(c) {
        assert ([c] + rest)[1..] == rest;
      } else {
        PercentBytesDecode(Utf8(c), rest);
      }
    }
  }

  lemma {:induction false} PercentBytesDecode(bs: seq<Byte>, rest: string)
    ensures PercentDecode(PercentBytes(bs) + rest) == PrependBytes(bs, PercentDecode(rest))
  {
    if bs != [] {
      var tail := PercentBytes(bs[1..]) + rest;
      PercentBytesDecode(bs[1..], rest);
      assert PercentBytes(bs) + rest == PercentByte(bs[0]) + tail;
      PercentByteDecode(bs[0], tail);
      PrependBytesCons(bs, PercentDecode(rest));
    } else {
      assert PercentBytes(bs) + rest == rest;
      PrependNothing(PercentDecode(rest));
    }
  }

  /** Prepending a byte and then the rest of a sequence is prepending the whole sequence. */
  lemma PrependBytesCons(bs: seq<Byte>, t: Option<seq<Byte>>)
    requires bs != []
    ensures PrependBytes([bs[0]], PrependBytes(bs[1..], t)) == PrependBytes(bs, t)
  {
    if t.Some? {
      ConsAppend(bs, t.value);
    }
  }

  lemma PrependNothing(t: Option<seq<Byte>>)
    ensures PrependBytes([], t) == t
  {
    if t.Some? {
      assert [] + t.value == t.value;
    }
  }

  lemma ConsAppend(xs: seq<Byte>, v: seq<Byte>)
    requires xs != []
    ensures [xs[0]] + (xs[1..] + v) == xs + v
  {
    assert xs == [xs[0]] + xs[1..];
  }

  lemma PercentByteDecode(b: Byte, rest: string)
    ensures PercentDecode(PercentByte(b) + rest) == PrependBytes([b], PercentDecode(rest))
  {
    var s := PercentByte(b) + rest;
    var hi := b / 16;
    var lo := b % 16;
    HexDigitValue(hi);
    HexDigitValue(lo);
    assert s[0] == '%' && s[1] == HexDigit(hi) && s[2] == HexDigit(lo);
    assert s[3..] == rest;
    PercentDecodeEscape(s, hi, lo, rest);
    assert 16 * hi + lo == b;
  }

  lemma PercentDecodeEscape(s: string, hi: nat, lo: nat, tail: string)
    requires |s| >= 3 && s[0] == '%' && s[3..] == tail
    requires HexValue(s[1]) == Some(hi) && HexValue(s[2]) == Some(lo) && hi < 16 && lo < 16
    ensures PercentDecode(s) == PrependBytes([16 * hi + lo], PercentDecode(tail))
  {
  }

  lemma HexDigitValue(d: nat)
    requires d < 16
    ensures HexValue(HexDigit(d)) == Some(d)
  {
    var digits := "0123456789ABCDEF";
    assert digits[0] == '0' && digits[1] == '1' && digits[2] == '2' && digits[3] == '3';
    assert digits[4] == '4' && digits[5] == '5' && digits[6] == '6' && digits[7] == '7';
    assert digits[8] == '8' && digits[9] == '9' && digits[10] == 'A' && digits[11] == 'B';
    assert digits[12] == 'C' && digits[13] == 'D' && digits[14] == 'E' && digits[15] == 'F';
  }

  lemma {:induction false} Utf8RoundTrip(s: string)
    ensures Utf8Decode(Utf8String(s)) == Some(s)
  {
    if s != "" {
      Utf8RoundTrip(s[1..]);
      Utf8DecodeChar(s[0], Utf8String(s[1..]));
      assert [s[0]] + s[1..] == s;
    }
  }

  /** Decoding the UTF-8 form of one code point yields that code point and moves past it. */
  lemma Utf8DecodeChar(c: char, rest: seq<Byte>)
    ensures Utf8Decode(Utf8(c) + rest) == PrependChar(c, Utf8Decode(rest))
  {
    var n := c as int;
    if n < 0x80 {
      assert (Utf8(c) + rest)[1..] == rest;
    } else if n < 0x800 {
      Utf8DecodeTwo(c, rest);
    } else if n < 0x10000 {
      Utf8DecodeThree(c, rest);
    } else {
      Utf8DecodeFour(c, rest);
    }
  }

  lemma Utf8DecodeTwo(c: char, rest: seq<Byte>)
    requires 0x80 <= c as int < 0x800
    ensures Utf8Decode(Utf8(c) + rest) == PrependChar(c, Utf8Decode(rest))
  {
    var n := c as int;
    var bs := Utf8(c) + rest;
    assert bs[0] == 0xC0 + n / 64 && bs[1] == 0x80 + n % 64;
    assert bs[2..] == rest;
    assert (n / 64) * 64 + n % 64 == n;
  }

  lemma Utf8DecodeThree(c: char, rest: seq<Byte>)
    requires 0x800 <= c as int < 0x10000
    ensures Utf8Decode(Utf8(c) + rest) == PrependChar(c, Utf8Decode(rest))
  {
    var n := c as int;
    var bs := Utf8(c) + rest;
    assert bs[0] == 0xE0 + n / 4096 && bs[1] == 0x80 + (n / 64) % 64 && bs[2] == 0x80 + n % 64;
    assert bs[3..] == rest;
    Split64(n);
    var cp: int := (bs[0] as int - 0xE0) * 4096 + (bs[1] as int - 0x80) * 64 + (bs[2] as int - 0x80);
    assert cp == n;
  }

  lemma Utf8DecodeFour(c: char, rest: seq<Byte>)
    requires 0x10000 <= c as int
    ensures Utf8Decode(Utf8(c) + rest) == PrependChar(c, Utf8Decode(rest))
  {
    var n := c as int;
    var bs := Utf8(c) + rest;
    var b0, b1, b2, b3 := bs[0] as int, bs[1] as int, bs[2] as int, bs[3] as int;
    assert b0 == 0xF0 + n / 262144 && b1 == 0x80 + (n / 4096) % 64;
    assert b2 == 0x80 + (n / 64) % 64 && b3 == 0x80 + n % 64;
    FourByteFields(n);
    assert 0xF0 <= b0 < 0xF5;
    assert IsContinuation(bs[1]) && IsContinuation(bs[2]) && IsContinuation(bs[3]);
    assert (b0 - 0xF0) * 262144 + (b1 - 0x80) * 4096 + (b2 - 0x80) * 64 + (b3 - 0x80) == n;
    assert bs[4..] == rest;
  }

  /** The four fields of a supplementary code point put together give the code point back. */
  lemma FourByteFields(n: nat)
    requires 0x10000 <= n < 0x110000
    ensures n / 262144 < 5
    ensures (n / 262144) * 262144 + ((n / 4096) % 64) * 4096 + ((n / 64) % 64) * 64 + n % 64 == n
  {
    Split64(n);
    Split64(n / 64);
    assert n / 262144 == (n / 64) / 4096;
  }

  lemma Split64(n: nat)
    ensures n / 4096 == (n / 64) / 64
    ensures (n / 4096) * 4096 + ((n / 64) % 64) * 64 + n % 64 == n
  {
    var q := n / 64;
    assert n == 64 * q + n % 64;
    assert q == 64 * (q / 64) + q % 64;
    assert n == 4096 * (q / 64) + 64 * (q % 64) + n % 64;
  }
}
