/**
 * ECMAScript `encodeURIComponent` (section 19.2.6.4 of ECMA-262, 2022 and
 * later): characters of the RFC 2396 section 2.3 "unreserved" set pass
 * through; every other character is written as UTF-8 (RFC 3629 section 3)
 * with each byte as `%XX`, upper-case hexadecimal.
 *
 * A Dafny `char` is a Unicode scalar value, so a lone surrogate, the one
 * input on which the built-in throws `URIError`, cannot be written here.
 *
 * Its partners: the shape of the result (`IsPercentEncoded`) and the
 * inverse, `DecodeURIComponent`, proved to undo it on every string.
 */
module UriComponent {
  import opened Wrappers

  type Byte = b: int | 0 <= b < 256

  /** The RFC 2396 section 2.3 unreserved set: alphanumerics and `-_.!~*'()`. */
  predicate IsUnreserved(c: char)
  {
    || ('a' <= c <= 'z') || ('A' <= c <= 'Z') || ('0' <= c <= '9')
    || c == '-' || c == '_' || c == '.' || c == '!' || c == '~'
    || c == '*' || c == '\'' || c == '(' || c == ')'
  }

  predicate IsHexDigit(c: char)
  {
    ('0' <= c <= '9') || ('A' <= c <= 'F')
  }

  /** The upper-case hexadecimal digit for `d`. */
  function HexDigit(d: nat): (c: char)
    requires d < 16
    ensures IsHexDigit(c)
  {
    if d < 10 then ('0' as int + d) as char else ('A' as int + d - 10) as char
  }

  function HexValue(c: char): (d: nat)
    requires IsHexDigit(c)
    ensures d < 16 && HexDigit(d) == c
  {
    if c <= '9' then c as int - '0' as int else c as int - 'A' as int + 10
  }

  // ---------------------------------------------------------------------
  // UTF-8

  /** The UTF-8 bytes of one Unicode scalar value. */
  function Utf8(c: char): (bs: seq<Byte>)
    ensures 1 <= |bs| <= 4
  {
    var n := c as int;
    if n < 0x80 then [n]
    else if n < 0x800 then [0xC0 + n / 64, 0x80 + n % 64]
    else if n < 0x1_0000 then [0xE0 + n / 4096, 0x80 + n / 64 % 64, 0x80 + n % 64]
    else [0xF0 + n / 0x4_0000, 0x80 + n / 4096 % 64, 0x80 + n / 64 % 64, 0x80 + n % 64]
  }

  function Utf8Encode(s: string): seq<Byte>
  {
    if s == [] then [] else Utf8(s[0]) + Utf8Encode(s[1..])
  }

  predicate IsContinuation(b: Byte)
  {
    0x80 <= b < 0xC0
  }

  predicate IsScalar(n: int)
  {
    0 <= n < 0xD800 || 0xE000 <= n < 0x11_0000
  }

  /** The scalar value at the head of `bs` and the number of bytes it takes,
      rejecting overlong forms, surrogates and values past U+10FFFF. */
  function DecodeOne(bs: seq<Byte>): Option<(char, nat)>
  {
    if bs == [] then None
    else
      var b0 := bs[0] as int;
      if b0 < 0x80 then Some((b0 as char, 1))
      else if b0 < 0xC0 then None
      else if b0 < 0xE0 then
        if |bs| < 2 || !IsContinuation(bs[1]) then None
        else
          var n := (b0 - 0xC0) * 64 + (bs[1] as int - 0x80);
          if n < 0x80 then None else Some((n as char, 2))
      else if b0 < 0xF0 then
        if |bs| < 3 || !IsContinuation(bs[1]) || !IsContinuation(bs[2]) then None
        else
          var n := (b0 - 0xE0) * 4096 + (bs[1] as int - 0x80) * 64 + (bs[2] as int - 0x80);
          if n < 0x800 || !IsScalar(n) then None else Some((n as char, 3))
      else
        if |bs| < 4 || !IsContinuation(bs[1]) || !IsContinuation(bs[2]) || !IsContinuation(bs[3]) then None
        else
          var n := (b0 - 0xF0) * 0x4_0000 + (bs[1] as int - 0x80) * 4096 + (bs[2] as int - 0x80) * 64
            + (bs[3] as int - 0x80);
          if n < 0x1_0000 || !IsScalar(n) then None else Some((n as char, 4))
  }

  function Utf8Decode(bs: seq<Byte>): Option<string>
    decreases |bs|
  {
    if bs == [] then Some([])
    else match DecodeOne(bs)
      case None => None
      case Some((c, len)) =>
        if 0 < len <= |bs| then
          match Utf8Decode(bs[len..])
          case None => None
          case Some(rest) => Some([c] + rest)
        else None
  }

  lemma DecodeOneUtf8(c: char, rest: seq<Byte>)
    ensures DecodeOne(Utf8(c) + rest) == Some((c, |Utf8(c)|))
  {
    var n := c as int;
    if n < 0x80 {
    } else if n < 0x800 {
      DecodeTwo(c, rest);
    } else if n < 0x1_0000 {
      DecodeThree(c, rest);
    } else {
      DecodeFour(c, rest);
    }
  }

  lemma DecodeTwo(c: char, rest: seq<Byte>)
    requires 0x80 <= c as int < 0x800
    ensures DecodeOne(Utf8(c) + rest) == Some((c, 2))
  {
    var n := c as int;
    var bs := Utf8(c) + rest;
    var b0, b1 := bs[0] as int, bs[1] as int;
    assert b0 == 0xC0 + n / 64 && b1 == 0x80 + n % 64;
    assert (b0 - 0xC0) * 64 + (b1 - 0x80) == n;
  }

  lemma DecodeThree(c: char, rest: seq<Byte>)
    requires 0x800 <= c as int < 0x1_0000
    ensures DecodeOne(Utf8(c) + rest) == Some((c, 3))
  {
    var n := c as int;
    var bs := Utf8(c) + rest;
    var b0, b1, b2 := bs[0] as int, bs[1] as int, bs[2] as int;
    assert b0 == 0xE0 + n / 4096 && b1 == 0x80 + n / 64 % 64 && b2 == 0x80 + n % 64;
    assert (b0 - 0xE0) * 4096 + (b1 - 0x80) * 64 + (b2 - 0x80) == n;
  }

  lemma DecodeFour(c: char, rest: seq<Byte>)
    requires 0x1_0000 <= c as int
    ensures DecodeOne(Utf8(c) + rest) == Some((c, 4))
  {
    var n := c as int;
    var bs := Utf8(c) + rest;
    var b0, b1, b2, b3 := bs[0] as int, bs[1] as int, bs[2] as int, bs[3] as int;
    assert b0 == 0xF0 + n / 0x4_0000 && b1 == 0x80 + n / 4096 % 64;
    assert b2 == 0x80 + n / 64 % 64 && b3 == 0x80 + n % 64;
    assert (b0 - 0xF0) * 0x4_0000 + (b1 - 0x80) * 4096 + (b2 - 0x80) * 64 + (b3 - 0x80) == n;
  }

  /** UTF-8 decoding undoes UTF-8 encoding. */
  lemma {:induction false} Utf8RoundTrip(s: string)
    ensures Utf8Decode(Utf8Encode(s)) == Some(s)
  {
    if s != [] {
      var bs := Utf8Encode(s);
      DecodeOneUtf8(s[0], Utf8Encode(s[1..]));
      assert bs[|Utf8(s[0])|..] == Utf8Encode(s[1..]);
      Utf8RoundTrip(s[1..]);
      assert [s[0]] + s[1..] == s;
    }
  }

  // ---------------------------------------------------------------------
  // Percent-encoding

  function PercentBytes(bs: seq<Byte>): (r: string)
    ensures |r| == 3 * |bs|
  {
    if bs == [] then [] else ['%', HexDigit(bs[0] / 16), HexDigit(bs[0] % 16)] + PercentBytes(bs[1..])
  }

  function EncodeChar(c: char): string
  {
    if IsUnreserved(c) then [c] else PercentBytes(Utf8(c))
  }

  /** A string made only of unreserved characters and `%XX` triples. */
  predicate IsPercentEncoded(r: string)
  {
    forall i :: 0 <= i < |r| ==> IsEncodedAt(r, i)
  }

  /** Position `i` holds an unreserved character or the `%` of a `%XX` triple. */
  predicate IsEncodedAt(r: string, i: nat)
    requires i < |r|
  {
    IsUnreserved(r[i]) || (r[i] == '%' && i + 2 < |r| && IsHexDigit(r[i + 1]) && IsHexDigit(r[i + 2]))
  }

  lemma {:induction false} PercentBytesEncoded(bs: seq<Byte>)
    ensures IsPercentEncoded(PercentBytes(bs))
  {
    if bs != [] {
      PercentBytesEncoded(bs[1..]);
      var head := ['%', HexDigit(bs[0] / 16), HexDigit(bs[0] % 16)];
      assert IsEncodedAt(head, 0) && IsEncodedAt(head, 1) && IsEncodedAt(head, 2);
      AppendEncoded(head, PercentBytes(bs[1..]));
    }
  }

  lemma AppendEncoded(a: string, b: string)
    requires IsPercentEncoded(a) && IsPercentEncoded(b)
    ensures IsPercentEncoded(a + b)
  {
    var r := a + b;
    forall i | 0 <= i < |r| ensures IsEncodedAt(r, i) {
      if i >= |a| {
        var k := i - |a|;
        assert IsEncodedAt(b, k);
        assert r[i] == b[k];
        if !IsUnreserved(b[k]) {
          assert r[i + 1] == b[k + 1] && r[i + 2] == b[k + 2];
        }
      } else {
        assert IsEncodedAt(a, i);
        assert r[i] == a[i];
        if !IsUnreserved(a[i]) {
          assert r[i + 1] == a[i + 1] && r[i + 2] == a[i + 2];
        }
      }
    }
  }

  /** `encodeURIComponent`. Its result is percent-encoded, and it leaves a
      string made only of unreserved characters as it is. */
  function EncodeURIComponent(s: string): (r: string)
    ensures IsPercentEncoded(r)
    ensures (forall i :: 0 <= i < |s| ==> IsUnreserved(s[i])) ==> r == s
  {
    if s == [] then []
    else
      var head := EncodeChar(s[0]);
      var tail := EncodeURIComponent(s[1..]);
      assert IsPercentEncoded(head) by {
        if !IsUnreserved(s[0]) { PercentBytesEncoded(Utf8(s[0])); }
      }
      AppendEncoded(head, tail);
      assert (forall i :: 0 <= i < |s| ==> IsUnreserved(s[i])) ==> head + tail == [s[0]] + s[1..] == s;
      head + tail
  }

  /** The encoding works character by character, so it distributes over
      concatenation. */
  lemma {:induction false} EncodeAppend(a: string, b: string)
    ensures EncodeURIComponent(a + b) == EncodeURIComponent(a) + EncodeURIComponent(b)
  {
    if a != [] {
      assert (a + b)[0] == a[0] && (a + b)[1..] == a[1..] + b;
      EncodeAppend(a[1..], b);
    } else {
      assert a + b == b;
    }
  }

  /** An unreserved character is copied as it is wherever it stands, also
      between characters that are escaped. */
  lemma UnreservedPassesThrough(a: string, c: char, b: string)
    requires IsUnreserved(c)
    ensures EncodeURIComponent(a + [c] + b) == EncodeURIComponent(a) + [c] + EncodeURIComponent(b)
  {
    EncodeAppend(a + [c], b);
    EncodeAppend(a, [c]);
  }

  /** Reads a percent-encoded string back into the bytes it stands for. */
  function PercentDecode(r: string): Option<seq<Byte>>
  {
    if r == [] then Some([])
    else if r[0] == '%' then
      if |r| < 3 || !IsHexDigit(r[1]) || !IsHexDigit(r[2]) then None
      else match PercentDecode(r[3..])
        case None => None
        case Some(rest) => Some([HexValue(r[1]) * 16 + HexValue(r[2])] + rest)
    else if IsUnreserved(r[0]) then
      match PercentDecode(r[1..])
      case None => None
      case Some(rest) => Some([r[0] as int] + rest)
    else None
  }

  /** The inverse of `EncodeURIComponent` on its image. */
  function DecodeURIComponent(r: string): Option<string>
  {
    match PercentDecode(r)
    case None => None
    case Some(bs) => Utf8Decode(bs)
  }

  function Prepend(bs: seq<Byte>, o: Option<seq<Byte>>): Option<seq<Byte>>
  {
    match o
    case None => None
    case Some(tail) => Some(bs + tail)
  }

  lemma PercentTripleDecode(b: Byte, rest: string)
    ensures PercentDecode(['%', HexDigit(b / 16), HexDigit(b % 16)] + rest) == Prepend([b], PercentDecode(rest))
  {
    var r := ['%', HexDigit(b / 16), HexDigit(b % 16)] + rest;
    assert r[0] == '%' && r[1] == HexDigit(b / 16) && r[2] == HexDigit(b % 16);
    assert r[3..] == rest;
    assert HexValue(r[1]) == b / 16 && HexValue(r[2]) == b % 16;
  }

  lemma {:induction false} PercentBytesDecode(bs: seq<Byte>, rest: string)
    ensures PercentDecode(PercentBytes(bs) + rest) == Prepend(bs, PercentDecode(rest))
  {
    if bs == [] {
      assert PercentBytes(bs) + rest == rest;
      match PercentDecode(rest) {
        case None =>
        case Some(tail) => assert bs + tail == tail;
      }
    } else {
      var b := bs[0];
      var triple := ['%', HexDigit(b / 16), HexDigit(b % 16)];
      var more := PercentBytes(bs[1..]) + rest;
      calc {
        PercentDecode(PercentBytes(bs) + rest);
        { assert PercentBytes(bs) + rest == triple + more; }
        PercentDecode(triple + more);
        { PercentTripleDecode(b, more); }
        Prepend([b], PercentDecode(more));
        { PercentBytesDecode(bs[1..], rest); }
        Prepend([b], Prepend(bs[1..], PercentDecode(rest)));
        { PrependTwice([b], bs[1..], PercentDecode(rest)); assert [b] + bs[1..] == bs; }
        Prepend(bs, PercentDecode(rest));
      }
    }
  }

  lemma PrependTwice(a: seq<Byte>, b: seq<Byte>, o: Option<seq<Byte>>)
    ensures Prepend(a, Prepend(b, o)) == Prepend(a + b, o)
  {
    match o {
      case None =>
      case Some(tail) => assert a + (b + tail) == (a + b) + tail;
    }
  }

  lemma {:induction false} PercentDecodeEncode(s: string)
    ensures PercentDecode(EncodeURIComponent(s)) == Some(Utf8Encode(s))
  {
    if s != [] {
      var tail := EncodeURIComponent(s[1..]);
      PercentDecodeEncode(s[1..]);
      var c := s[0];
      if IsUnreserved(c) {
        var r := [c] + tail;
        assert r[1..] == tail;
      } else {
        PercentBytesDecode(Utf8(c), tail);
      }
    }
  }

  /** Decoding undoes `encodeURIComponent` on every string. */
  lemma URIComponentRoundTrip(s: string)
    ensures DecodeURIComponent(EncodeURIComponent(s)) == Some(s)
  {
    PercentDecodeEncode(s);
    Utf8RoundTrip(s);
  }
}
