/** `encodeURIComponent` (ECMA-262, section 19.2.6.4): every character
    outside the unreserved set `A-Z a-z 0-9 - _ . ! ~ * ' ( )` is replaced
    by the `%XX` escapes of its UTF-8 bytes, in upper-case hexadecimal.
    Characters here are Unicode scalar values, so the lone surrogates on
    which the JavaScript function throws do not arise.

    `Decode` is `decodeURIComponent` (section 19.2.6.3), the inverse the
    round-trip lemma is stated against: escapes are read back into bytes and
    each UTF-8 group must be the encoding of one character. */
module UriEncoding {
  import opened Common

  /** The characters `encodeURIComponent` leaves alone. */
  predicate Unreserved(c: char) {
    || ('A' <= c <= 'Z') || ('a' <= c <= 'z') || ('0' <= c <= '9')
    || c == '-' || c == '_' || c == '.' || c == '!' || c == '~' || c == '*'
    || c == '\'' || c == '(' || c == ')'
  }

  predicate AllUnreserved(s: string) {
    forall i :: 0 <= i < |s| ==> Unreserved(s[i])
  }

  // ---------------------------------------------------------------------
  // UTF-8
  // ---------------------------------------------------------------------

  predicate IsByte(b: int) {
    0 <= b < 256
  }

  predicate Continuation(b: int) {
    0x80 <= b < 0xC0
  }

  /** The length of a UTF-8 group, read off its first byte. */
  function GroupLength(lead: int): (n: nat)
    ensures 1 <= n <= 4
  {
    if lead < 0x80 then 1 else if lead < 0xE0 then 2 else if lead < 0xF0 then 3 else 4
  }

  /** The UTF-8 encoding of one character. */
  function Utf8(c: char): (b: seq<int>)
    ensures 1 <= |b| <= 4 && |b| == GroupLength(b[0])
    ensures forall i :: 0 <= i < |b| ==> IsByte(b[i])
    ensures forall i :: 1 <= i < |b| ==> Continuation(b[i])
    ensures |b| == 1 <==> c as int < 0x80
  {
    var v := c as int;
    if v < 0x80 then [v]
    else if v < 0x800 then [0xC0 + v / 64, 0x80 + v % 64]
    else if v < 0x10000 then [0xE0 + v / 4096, 0x80 + (v / 64) % 64, 0x80 + v % 64]
    else [0xF0 + v / 262144, 0x80 + (v / 4096) % 64, 0x80 + (v / 64) % 64, 0x80 + v % 64]
  }

  /** The code point a group of the right length spells (not necessarily a
      valid one). */
  function GroupValue(b: seq<int>): int
    requires 1 <= |b| <= 4 && |b| == GroupLength(b[0])
  {
    if |b| == 1 then b[0]
    else if |b| == 2 then (b[0] - 0xC0) * 64 + (b[1] - 0x80)
    else if |b| == 3 then (b[0] - 0xE0) * 4096 + (b[1] - 0x80) * 64 + (b[2] - 0x80)
    else (b[0] - 0xF0) * 262144 + (b[1] - 0x80) * 4096 + (b[2] - 0x80) * 64 + (b[3] - 0x80)
  }

  predicate IsScalar(v: int) {
    (0 <= v < 0xD800) || (0xE000 <= v < 0x11_0000)
  }

  /** Reading a group back: the spelled code point, kept only when the
      group is exactly that character's encoding (which rules out stray
      continuation bytes, over-long forms and surrogates). */
  function DecodeGroup(b: seq<int>): (r: Option<char>)
    requires 1 <= |b| <= 4 && |b| == GroupLength(b[0])
    ensures r.Some? ==> Utf8(r.value) == b
  {
    var v := GroupValue(b);
    if IsScalar(v) && Utf8(v as char) == b then Some(v as char) else None
  }

  lemma SplitBase64(v: int)
    requires v >= 0
    ensures v == (v / 64) * 64 + v % 64
    ensures (v / 64) / 64 == v / 4096
    ensures (v / 4096) / 64 == v / 262144
  {
  }

  /** Every character's encoding spells the character. */
  lemma {:induction false} GroupValueOfUtf8(c: char)
    ensures GroupValue(Utf8(c)) == c as int
  {
    var v := c as int;
    SplitBase64(v);
    SplitBase64(v / 64);
    SplitBase64(v / 4096);
  }

  /** Every character's encoding decodes back to it. */
  lemma DecodeGroupOfUtf8(c: char)
    ensures DecodeGroup(Utf8(c)) == Some(c)
  {
    GroupValueOfUtf8(c);
  }

  // ---------------------------------------------------------------------
  // Percent escapes
  // ---------------------------------------------------------------------

  function HexDigit(d: int): (c: char)
    requires 0 <= d < 16
    ensures Unreserved(c) && c != '%'
  {
    if d < 10 then (48 + d) as char else (55 + d) as char
  }

  /** The value of a hexadecimal digit of either case. */
  function HexValue(c: char): (r: Option<int>)
    ensures r.Some? ==> 0 <= r.value < 16
  {
    if '0' <= c <= '9' then Some(c as int - 48)
    else if 'A' <= c <= 'F' then Some(c as int - 55)
    else if 'a' <= c <= 'f' then Some(c as int - 87)
    else None
  }

  lemma HexValueOfDigit(d: int)
    requires 0 <= d < 16
    ensures HexValue(HexDigit(d)) == Some(d)
  {
  }

  /** `%XX` for one byte. */
  function Escape(b: int): (e: string)
    requires IsByte(b)
    ensures |e| == 3 && e[0] == '%'
  {
    ['%', HexDigit(b / 16), HexDigit(b % 16)]
  }

  function EscapeAll(bs: seq<int>): (e: string)
    requires forall i :: 0 <= i < |bs| ==> IsByte(bs[i])
    ensures |e| == 3 * |bs|
  {
    if bs == [] then [] else Escape(bs[0]) + EscapeAll(bs[1..])
  }

  /** The byte escaped at the start of `s`, if `s` starts with an escape. */
  function ReadEscape(s: string): (r: Option<int>)
    ensures r.Some? ==> |s| >= 3 && IsByte(r.value)
  {
    if |s| >= 3 && s[0] == '%' && HexValue(s[1]).Some? && HexValue(s[2]).Some? then
      Some(HexValue(s[1]).value * 16 + HexValue(s[2]).value)
    else None
  }

  /** The `n` bytes escaped at the start of `s`. */
  function ReadEscapes(s: string, n: nat): (r: Option<seq<int>>)
    ensures r.Some? ==> |r.value| == n && |s| >= 3 * n
    decreases n
  {
    if n == 0 then Some([])
    else
      match ReadEscape(s)
      case None => None
      case Some(b) =>
        match ReadEscapes(s[3..], n - 1)
        case None => None
        case Some(bs) => Some([b] + bs)
  }

  lemma ReadEscapeOfEscape(b: int, rest: string)
    requires IsByte(b)
    ensures ReadEscape(Escape(b) + rest) == Some(b)
  {
    var s := Escape(b) + rest;
    HexValueOfDigit(b / 16);
    HexValueOfDigit(b % 16);
    assert s[0] == '%' && s[1] == HexDigit(b / 16) && s[2] == HexDigit(b % 16);
  }

  lemma {:induction false} ReadEscapesOfEscapeAll(bs: seq<int>, rest: string)
    requires forall i :: 0 <= i < |bs| ==> IsByte(bs[i])
    ensures ReadEscapes(EscapeAll(bs) + rest, |bs|) == Some(bs)
  {
    if bs != [] {
      var tail := EscapeAll(bs[1..]) + rest;
      var s := Escape(bs[0]) + tail;
      assert EscapeAll(bs) + rest == s;
      ReadEscapeOfEscape(bs[0], tail);
      assert s[3..] == tail;
      ReadEscapesOfEscapeAll(bs[1..], rest);
      assert [bs[0]] + bs[1..] == bs;
    }
  }

  // ---------------------------------------------------------------------
  // Encoding and decoding strings
  // ---------------------------------------------------------------------

  function EncodeChar(c: char): (e: string)
    ensures Unreserved(c) ==> e == [c]
    ensures !Unreserved(c) ==> e == EscapeAll(Utf8(c))
  {
    if Unreserved(c) then [c] else EscapeAll(Utf8(c))
  }

  /** `encodeURIComponent(s)`. */
  function Encode(s: string): (e: string)
    ensures |e| >= |s|
  {
    if s == [] then [] else EncodeChar(s[0]) + Encode(s[1..])
  }

  /** `decodeURIComponent(s)`; `None` where it throws. */
  function Decode(s: string): (r: Option<string>)
    decreases |s|
  {
    if s == [] then Some([])
    else if s[0] != '%' then
      match Decode(s[1..])
      case None => None
      case Some(t) => Some([s[0]] + t)
    else
      match ReadEscape(s)
      case None => None
      case Some(lead) =>
        var n := GroupLength(lead);
        match ReadEscapes(s, n)
        case None => None
        case Some(bs) =>
          assert bs[0] == lead;
          match DecodeGroup(bs)
          case None => None
          case Some(c) =>
            match Decode(s[3 * n..])
            case None => None
            case Some(t) => Some([c] + t)
  }

  /** Decoding undoes encoding, one character at a time. */
  lemma {:induction false} DecodeEncode(s: string)
    ensures Decode(Encode(s)) == Some(s)
    decreases |s|
  {
    if s != [] {
      var c := s[0];
      var rest := Encode(s[1..]);
      DecodeEncode(s[1..]);
      if !Unreserved(c) {
        var bs := Utf8(c);
        var e := Encode(s);
        assert e == EscapeAll(bs) + rest;
        ReadEscapesOfEscapeAll(bs, rest);
        assert e[0] == '%';
        assert ReadEscape(e) == Some(bs[0]);
        assert GroupLength(bs[0]) == |bs|;
        DecodeGroupOfUtf8(c);
        assert e[3 * |bs|..] == rest;
        assert Decode(e) == Some([c] + s[1..]);
      }
      assert [c] + s[1..] == s;
    }
  }

  /** Two strings with the same encoding are the same string. */
  lemma EncodeInjective(a: string, b: string)
    requires Encode(a) == Encode(b)
    ensures a == b
  {
    DecodeEncode(a);
    DecodeEncode(b);
  }

  /** The characters an encoding is made of: unreserved ones and `%`. */
  predicate EscapedAlphabet(e: string) {
    forall i :: 0 <= i < |e| ==> Unreserved(e[i]) || e[i] == '%'
  }

  lemma AlphabetConcat(a: string, b: string)
    requires EscapedAlphabet(a) && EscapedAlphabet(b)
    ensures EscapedAlphabet(a + b)
  {
    forall i | 0 <= i < |a + b| ensures Unreserved((a + b)[i]) || (a + b)[i] == '%' {
      if i >= |a| {
        assert (a + b)[i] == b[i - |a|];
      }
    }
  }

  /** An encoding uses only unreserved characters and `%`; in particular
      it holds no `&` and no `=`. */
  lemma {:induction false} EncodeAlphabet(s: string)
    ensures EscapedAlphabet(Encode(s))
    ensures '&' !in Encode(s) && '=' !in Encode(s)
    decreases |s|
  {
    if s != [] {
      EncodeAlphabet(s[1..]);
      if !Unreserved(s[0]) {
        EscapeAlphabet(Utf8(s[0]));
      }
      AlphabetConcat(EncodeChar(s[0]), Encode(s[1..]));
    }
    var e := Encode(s);
    assert forall i :: 0 <= i < |e| ==> e[i] != '&' && e[i] != '=' by {
      forall i | 0 <= i < |e| ensures e[i] != '&' && e[i] != '=' {
        assert Unreserved(e[i]) || e[i] == '%';
      }
    }
  }

  lemma {:induction false} EscapeAlphabet(bs: seq<int>)
    requires forall i :: 0 <= i < |bs| ==> IsByte(bs[i])
    ensures EscapedAlphabet(EscapeAll(bs))
  {
    if bs != [] {
      EscapeAlphabet(bs[1..]);
      AlphabetConcat(Escape(bs[0]), EscapeAll(bs[1..]));
    }
  }

  /** A string of unreserved characters is its own encoding. */
  lemma {:induction false} EncodeUnreserved(s: string)
    requires AllUnreserved(s)
    ensures Encode(s) == s
    decreases |s|
  {
    if s != [] {
      EncodeUnreserved(s[1..]);
    }
  }

  lemma EncodeExamples()
    ensures EncodeChar(' ') == "%20"
    ensures EncodeChar('&') == "%26"
    ensures EncodeChar('\U{00E9}') == "%C3%A9"
  {
  }
}
