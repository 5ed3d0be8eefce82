/** `encodeURIComponent` (section 18.2.6.5 of ECMA-262, 6th edition) on
    strings of Unicode scalar values, and a decoder that undoes it.

    A character in the unescaped set (ASCII letters, digits and
    `- _ . ! ~ * ' ( )`) is copied; every other character is written as its
    UTF-8 bytes (RFC 3629), each as `%` and two upper-case hex digits. */
module Percent {
  import opened Wrappers

  newtype byte = x: int | 0 <= x < 256

  /** The unescaped set of encodeURIComponent (uriUnreserved). */
  predicate IsUnreserved(c: char) {
    || ('A' <= c <= 'Z')
    || ('a' <= c <= 'z')
    || ('0' <= c <= '9')
    || c == '-' || c == '_' || c == '.' || c == '!'
    || c == '~' || c == '*' || c == '\'' || c == '(' || c == ')'
  }

  /** The upper-case hex digit of a nibble. */
  function HexDigit(n: int): (c: char)
    requires 0 <= n < 16
    ensures IsUnreserved(c)
  {
    if n < 10 then ('0' as int + n) as char else ('A' as int + n - 10) as char
  }

  /** The value of a hex digit of either case, as the decoder reads it. */
  function HexValue(c: char): Option<int> {
    if '0' <= c <= '9' then Some(c as int - '0' as int)
    else if 'A' <= c <= 'F' then Some(c as int - 'A' as int + 10)
    else if 'a' <= c <= 'f' then Some(c as int - 'a' as int + 10)
    else None
  }

  lemma HexDigitValue(n: int)
    requires 0 <= n < 16
    ensures HexValue(HexDigit(n)) == Some(n)
  {
  }

  /** One byte as `%XX`. */
  function Escape(b: byte): (r: string)
    ensures |r| == 3 && r[0] == '%'
  {
    ['%', HexDigit(b as int / 16), HexDigit(b as int % 16)]
  }

  /** Every byte of `bs` as `%XX`, in order. */
  function EscapeAll(bs: seq<byte>): (r: string)
    ensures |r| == 3 * |bs|
  {
    if bs == [] then [] else Escape(bs[0]) + EscapeAll(bs[1..])
  }

  /** The UTF-8 encoding of one Unicode scalar value. */
  function Utf8(c: char): (r: seq<byte>)
    ensures 1 <= |r| <= 4
  {
    var n := c as int;
    if n < 0x80 then [n as byte]
    else
      var q1, r1 := n / 64, n % 64;
      if n < 0x800 then [(0xC0 + q1) as byte, (0x80 + r1) as byte]
      else
        var q2, r2 := q1 / 64, q1 % 64;
        if n < 0x1_0000 then [(0xE0 + q2) as byte, (0x80 + r2) as byte, (0x80 + r1) as byte]
        else
          var q3, r3 := q2 / 64, q2 % 64;
          [(0xF0 + q3) as byte, (0x80 + r3) as byte, (0x80 + r2) as byte, (0x80 + r1) as byte]
  }

  /** What encodeURIComponent writes for one character. */
  function EncodeChar(c: char): (r: string)
    ensures IsUnreserved(c) ==> r == [c]
    ensures !IsUnreserved(c) ==> 3 <= |r| <= 12 && r[0] == '%'
    ensures forall k :: 0 <= k < |r| ==> IsUnreserved(r[k]) || r[k] == '%'
  {
    if IsUnreserved(c) then [c]
    else
      var r := EscapeAll(Utf8(c));
      assert forall k :: 0 <= k < |r| ==> IsUnreserved(r[k]) || r[k] == '%' by {
        EscapeAllAlphabet(Utf8(c));
      }
      r
  }

  lemma {:induction false} EscapeAllAlphabet(bs: seq<byte>)
    ensures forall k :: 0 <= k < |EscapeAll(bs)| ==> IsUnreserved(EscapeAll(bs)[k]) || EscapeAll(bs)[k] == '%'
  {
    if bs != [] {
      EscapeAllAlphabet(bs[1..]);
    }
  }

  /** encodeURIComponent: the output uses only unreserved characters and
      `%`, so it never contains a query delimiter (`&`, `=`, `#`, `?`). */
  function EncodeUriComponent(s: string): (r: string)
    ensures |r| >= |s|
    ensures forall k :: 0 <= k < |r| ==> IsUnreserved(r[k]) || r[k] == '%'
  {
    if s == [] then [] else EncodeChar(s[0]) + EncodeUriComponent(s[1..])
  }

  /** The encoder works character by character: the encoding of a
      concatenation is the concatenation of the encodings. */
  lemma {:induction false} EncodeAppend(a: string, b: string)
    ensures EncodeUriComponent(a + b) == EncodeUriComponent(a) + EncodeUriComponent(b)
  {
    if a != [] {
      assert (a + b)[1..] == a[1..] + b;
      EncodeAppend(a[1..], b);
    } else {
      assert a + b == b;
    }
  }

  /** A string is left unchanged by the encoder exactly when every one of its
      characters is in the unescaped set. */
  lemma {:induction false} EncodeFixedIff(s: string)
    ensures EncodeUriComponent(s) == s <==> forall k :: 0 <= k < |s| ==> IsUnreserved(s[k])
  {
    if s != [] {
      EncodeFixedIff(s[1..]);
      if IsUnreserved(s[0]) {
        assert EncodeUriComponent(s) == [s[0]] + EncodeUriComponent(s[1..]);
        if EncodeUriComponent(s) == s {
          assert EncodeUriComponent(s[1..]) == s[1..];
        }
        if forall k :: 0 <= k < |s| ==> IsUnreserved(s[k]) {
          assert forall k :: 0 <= k < |s[1..]| ==> IsUnreserved(s[1..][k]) by {
            forall k | 0 <= k < |s[1..]| ensures IsUnreserved(s[1..][k]) {
              assert s[1..][k] == s[k + 1];
            }
          }
        }
      } else {
        assert |EncodeUriComponent(s)| > |s|;
      }
    }
  }

  // ----- the decoder -----

  /** The byte written as `%XX` at the front of `s`, if there is one. */
  function ByteAt(s: string): (r: Option<byte>)
    ensures r.Some? ==> |s| >= 3
  {
    if |s| >= 3 && s[0] == '%' && HexValue(s[1]).Some? && HexValue(s[2]).Some? then
      Some((HexValue(s[1]).value * 16 + HexValue(s[2]).value) as byte)
    else None
  }

  /** `n` escaped bytes in a row at the front of `s`. */
  function BytesAt(s: string, n: nat): (r: Option<seq<byte>>)
    ensures r.Some? ==> |r.value| == n && |s| >= 3 * n
  {
    if n == 0 then Some([])
    else match ByteAt(s)
      case None => None
      case Some(b) =>
        match BytesAt(s[3..], n - 1)
        case None => None
        case Some(bs) => Some([b] + bs)
  }

  /** How many bytes a UTF-8 sequence with this first byte has; 0 when the
      byte cannot start one. */
  function SequenceLength(b: byte): nat {
    if b < 0x80 then 1
    else if 0xC0 <= b < 0xE0 then 2
    else if 0xE0 <= b < 0xF0 then 3
    else if 0xF0 <= b < 0xF8 then 4
    else 0
  }

  predicate IsContinuation(b: byte) {
    0x80 <= b < 0xC0
  }

  /** The scalar value of one whole UTF-8 sequence; None for a malformed,
      overlong, surrogate or out-of-range sequence. */
  function CodePoint(bs: seq<byte>): Option<char>
    requires 1 <= |bs| <= 4 && SequenceLength(bs[0]) == |bs|
  {
    if exists k :: 1 <= k < |bs| && !IsContinuation(bs[k]) then None
    else
      var n :=
        if |bs| == 1 then bs[0] as int
        else if |bs| == 2 then (bs[0] as int - 0xC0) * 64 + (bs[1] as int - 0x80)
        else if |bs| == 3 then ((bs[0] as int - 0xE0) * 64 + (bs[1] as int - 0x80)) * 64 + (bs[2] as int - 0x80)
        else (((bs[0] as int - 0xF0) * 64 + (bs[1] as int - 0x80)) * 64 + (bs[2] as int - 0x80)) * 64 + (bs[3] as int - 0x80);
      var least := if |bs| == 1 then 0 else if |bs| == 2 then 0x80 else if |bs| == 3 then 0x800 else 0x1_0000;
      if n < least || n > 0x10_FFFF || (0xD800 <= n < 0xE000) then None
      else Some(n as char)
  }

  /** Reverses encodeURIComponent: literal characters are kept, `%XX`
      sequences are read as UTF-8. None when the input is not well formed. */
  function DecodeUriComponent(s: string): Option<string>
    decreases |s|
  {
    if s == [] then Some([])
    else if s[0] != '%' then
      match DecodeUriComponent(s[1..])
      case None => None
      case Some(t) => Some([s[0]] + t)
    else
      match ByteAt(s)
      case None => None
      case Some(b) =>
        var n := SequenceLength(b);
        if n == 0 then None
        else
          match BytesAt(s, n)
          case None => None
          case Some(bs) =>
            assert bs[0] == b;
            match CodePoint(bs)
            case None => None
            case Some(c) =>
              match DecodeUriComponent(s[3 * n..])
              case None => None
              case Some(t) => Some([c] + t)
  }

  lemma ByteAtEscape(b: byte, rest: string)
    ensures ByteAt(Escape(b) + rest) == Some(b)
  {
    var s := Escape(b) + rest;
    HexDigitValue(b as int / 16);
    HexDigitValue(b as int % 16);
    assert s[1] == HexDigit(b as int / 16) && s[2] == HexDigit(b as int % 16);
  }

  lemma DropEscape(b: byte, t: string)
    ensures (Escape(b) + t)[3..] == t
  {
  }

  lemma {:induction false} BytesAtEscapeAll(bs: seq<byte>, rest: string)
    ensures BytesAt(EscapeAll(bs) + rest, |bs|) == Some(bs)
  {
    if bs != [] {
      var t := EscapeAll(bs[1..]) + rest;
      assert EscapeAll(bs) + rest == Escape(bs[0]) + t;
      ByteAtEscape(bs[0], t);
      DropEscape(bs[0], t);
      BytesAtEscapeAll(bs[1..], rest);
      assert [bs[0]] + bs[1..] == bs;
    }
  }

  lemma Utf8Decodes(c: char)
    ensures SequenceLength(Utf8(c)[0]) == |Utf8(c)|
    ensures CodePoint(Utf8(c)) == Some(c)
  {
    var n := c as int;
    var bs := Utf8(c);
    if n >= 0x80 {
      var q1, r1 := n / 64, n % 64;
      assert n == q1 * 64 + r1;
      if n >= 0x800 {
        var q2, r2 := q1 / 64, q1 % 64;
        assert q1 == q2 * 64 + r2;
        if n >= 0x1_0000 {
          var q3, r3 := q2 / 64, q2 % 64;
          assert q2 == q3 * 64 + r3;
          assert q3 <= 4;
        } else {
          assert q2 < 16;
        }
      } else {
        assert q1 < 32;
      }
    }
    assert forall k :: 1 <= k < |bs| ==> IsContinuation(bs[k]);
  }

  /** A run of escapes whose bytes form one well-formed UTF-8 sequence
      decodes to that sequence's character. */
  lemma DecodeEscapes(bs: seq<byte>, c: char, rest: string)
    requires bs != [] && SequenceLength(bs[0]) == |bs| && CodePoint(bs) == Some(c)
    ensures DecodeUriComponent(EscapeAll(bs) + rest) ==
            match DecodeUriComponent(rest) case None => None case Some(t) => Some([c] + t)
  {
    var s := EscapeAll(bs) + rest;
    BytesAtEscapeAll(bs, rest);
    assert s == Escape(bs[0]) + (EscapeAll(bs[1..]) + rest);
    ByteAtEscape(bs[0], EscapeAll(bs[1..]) + rest);
    assert s[3 * |bs|..] == rest;
  }

  lemma DecodeEncodeChar(c: char, rest: string)
    ensures DecodeUriComponent(EncodeChar(c) + rest) ==
            match DecodeUriComponent(rest) case None => None case Some(t) => Some([c] + t)
  {
    if IsUnreserved(c) {
      assert (EncodeChar(c) + rest)[1..] == rest;
    } else {
      Utf8Decodes(c);
      DecodeEscapes(Utf8(c), c, rest);
    }
  }

  /** Decoding undoes encodeURIComponent on every string. */
  lemma {:induction false} DecodeEncode(s: string)
    ensures DecodeUriComponent(EncodeUriComponent(s)) == Some(s)
  {
    if s != [] {
      DecodeEncode(s[1..]);
      DecodeEncodeChar(s[0], EncodeUriComponent(s[1..]));
      assert [s[0]] + s[1..] == s;
    }
  }

  /** Encoding is injective: two strings with the same encoding are equal. */
  lemma EncodeInjective(s: string, t: string)
    requires EncodeUriComponent(s) == EncodeUriComponent(t)
    ensures s == t
  {
    DecodeEncode(s);
    DecodeEncode(t);
  }
}
