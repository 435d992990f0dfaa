/** Percent-encoding as Python's `urllib.parse.quote` does it for a `str`:
    the text is encoded as UTF-8 and every byte outside the unreserved
    characters and the caller's `safe` set becomes `%XX` (upper-case hex).
    `Unquote` is `urllib.parse.unquote_to_bytes`, its partner. */
module Percent {
  import opened Text

  type Byte = b: int | 0 <= b < 256

  /** The UTF-8 encoding of one Unicode scalar value. */
  function Utf8Char(c: char): (r: seq<Byte>)
    ensures 1 <= |r| <= 4
    ensures |r| == 1 <==> c as int < 0x80
    ensures |r| == 1 ==> r[0] == c as int
  {
    var cp := c as int;
    if cp < 0x80 then [cp]
    else if cp < 0x800 then [0xC0 + cp / 0x40, 0x80 + cp % 0x40]
    else if cp < 0x10000 then [0xE0 + cp / 0x1000, 0x80 + (cp / 0x40) % 0x40, 0x80 + cp % 0x40]
    else [0xF0 + cp / 0x40000, 0x80 + (cp / 0x1000) % 0x40, 0x80 + (cp / 0x40) % 0x40, 0x80 + cp % 0x40]
  }

  /** `s.encode('utf-8')`. */
  function Utf8(s: string): seq<Byte> {
    if s == [] then [] else Utf8Char(s[0]) + Utf8(s[1..])
  }

  lemma {:induction false} Utf8Append(a: string, b: string)
    ensures Utf8(a + b) == Utf8(a) + Utf8(b)
  {
    if a == [] {
      assert a + b == b;
    } else {
      assert (a + b)[0] == a[0] && (a + b)[1..] == a[1..] + b;
      Utf8Append(a[1..], b);
    }
  }

  /** Letters, digits and `_.-~`: never escaped. */
  predicate Unreserved(c: char) {
    ('A' <= c <= 'Z') || ('a' <= c <= 'z') || ('0' <= c <= '9') ||
    c == '_' || c == '.' || c == '-' || c == '~'
  }

  /** A character `quote` copies as it is: unreserved, or an ASCII member of
      `safe` (non-ASCII members of `safe` are dropped by the library). */
  predicate Kept(c: char, safe: string) {
    Unreserved(c) || (c as int < 0x80 && c in safe)
  }

  function HexDigit(d: nat): (c: char)
    requires d < 16
    ensures Unreserved(c)
  {
    if d < 10 then ('0' as int + d) as char else ('A' as int + d - 10) as char
  }

  /** `%XX` for one byte. */
  function EscapeByte(b: Byte): (r: string)
    ensures |r| == 3 && r[0] == '%'
  {
    ['%', HexDigit(b / 16), HexDigit(b % 16)]
  }

  function Escape(bs: seq<Byte>): string {
    if bs == [] then [] else EscapeByte(bs[0]) + Escape(bs[1..])
  }

  function QuoteChar(c: char, safe: string): string {
    if Kept(c, safe) then [c] else Escape(Utf8Char(c))
  }

  /** `urllib.parse.quote(s, safe=safe)`. Every character of the result is
      unreserved, a kept member of `safe`, or the `%` that starts an escape. */
  function Quote(s: string, safe: string): (r: string)
    ensures forall k :: 0 <= k < |r| ==> Kept(r[k], safe) || r[k] == '%'
  {
    if s == [] then []
    else
      var head := QuoteChar(s[0], safe);
      assert forall k :: 0 <= k < |head| ==> Kept(head[k], safe) || head[k] == '%' by {
        if !Kept(s[0], safe) { EscapeChars(Utf8Char(s[0]), safe); }
      }
      head + Quote(s[1..], safe)
  }

  lemma {:induction false} EscapeChars(bs: seq<Byte>, safe: string)
    ensures forall k :: 0 <= k < |Escape(bs)| ==> Kept(Escape(bs)[k], safe) || Escape(bs)[k] == '%'
  {
    if bs != [] {
      EscapeChars(bs[1..], safe);
    }
  }

  predicate IsHexByte(b: Byte) {
    (0x30 <= b <= 0x39) || (0x41 <= b <= 0x46) || (0x61 <= b <= 0x66)
  }

  function HexValue(b: Byte): (v: nat)
    requires IsHexByte(b)
    ensures v < 16
  {
    if b <= 0x39 then b - 0x30 else if b <= 0x46 then b - 0x41 + 10 else b - 0x61 + 10
  }

  /** Decoding `%XX` escapes (either case), left to right; a `%` not followed
      by two hex digits stands for itself. */
  function PercentDecode(bs: seq<Byte>): seq<Byte> {
    if bs == [] then []
    else if |bs| >= 3 && bs[0] == 0x25 && IsHexByte(bs[1]) && IsHexByte(bs[2]) then
      [16 * HexValue(bs[1]) + HexValue(bs[2])] + PercentDecode(bs[3..])
    else [bs[0]] + PercentDecode(bs[1..])
  }

  /** `urllib.parse.unquote_to_bytes(t)`. */
  function Unquote(t: string): seq<Byte> {
    PercentDecode(Utf8(t))
  }

  lemma HexDigitRoundTrip(d: nat)
    requires d < 16
    ensures Utf8([HexDigit(d)]) == [HexDigit(d) as int]
    ensures IsHexByte(HexDigit(d) as int) && HexValue(HexDigit(d) as int) == d
  {
    var t := [HexDigit(d)];
    assert t[1..] == [];
    assert Utf8(t) == Utf8Char(t[0]) + Utf8([]);
  }

  /** The UTF-8 bytes of an escape are the ASCII codes of its three
      characters. */
  lemma EscapeByteBytes(b: Byte)
    ensures Utf8(EscapeByte(b)) == [0x25, HexDigit(b / 16) as int, HexDigit(b % 16) as int]
  {
    var e := EscapeByte(b);
    HexDigitRoundTrip(b / 16);
    HexDigitRoundTrip(b % 16);
    assert e == [e[0]] + ([e[1]] + [e[2]]);
    Utf8Append([e[0]], [e[1]] + [e[2]]);
    Utf8Append([e[1]], [e[2]]);
    assert Utf8([e[0]]) == [0x25] by {
      assert [e[0]][1..] == [];
    }
  }

  /** Decoding one escape, followed by anything, yields its byte first. */
  lemma EscapeByteDecodes(b: Byte, tail: seq<Byte>)
    ensures PercentDecode(Utf8(EscapeByte(b)) + tail) == [b] + PercentDecode(tail)
  {
    EscapeByteBytes(b);
    HexDigitRoundTrip(b / 16);
    HexDigitRoundTrip(b % 16);
    var enc := [0x25, HexDigit(b / 16) as int, HexDigit(b % 16) as int];
    assert (enc + tail)[3..] == tail;
    assert 16 * (b / 16) + b % 16 == b;
  }

  /** Decoding the escapes of `bs`, followed by anything, yields `bs` first. */
  lemma {:induction false} DecodeEscape(bs: seq<Byte>, rest: seq<Byte>)
    ensures PercentDecode(Utf8(Escape(bs)) + rest) == bs + PercentDecode(rest)
  {
    if bs != [] {
      var e := EscapeByte(bs[0]);
      var more := Utf8(Escape(bs[1..]));
      Utf8Append(e, Escape(bs[1..]));
      assert Utf8(Escape(bs)) + rest == Utf8(e) + (more + rest);
      EscapeByteDecodes(bs[0], more + rest);
      DecodeEscape(bs[1..], rest);
      assert [bs[0]] + bs[1..] == bs;
    } else {
      assert Utf8(Escape(bs)) + rest == rest;
    }
  }

  /** Decoding what `quote` produced gives back the UTF-8 bytes of its input,
      provided `%` itself is not declared safe. */
  lemma {:induction false} UnquoteQuote(s: string, safe: string)
    requires '%' !in safe
    ensures Unquote(Quote(s, safe)) == Utf8(s)
  {
    if s != [] {
      var c := s[0];
      var head := QuoteChar(c, safe);
      var tail := Quote(s[1..], safe);
      Utf8Append(head, tail);
      UnquoteQuote(s[1..], safe);
      if Kept(c, safe) {
        assert Utf8(head) == [c as int] by {
          assert Utf8(head) == Utf8Char(c) + Utf8([]);
        }
        assert c != '%';
        assert ([c as int] + Utf8(tail))[1..] == Utf8(tail);
      } else {
        DecodeEscape(Utf8Char(c), Utf8(tail));
      }
    }
  }
}
