/**
 * `encodeURIComponent` (section 19.2.6.5 of ECMA-262): every character
 * outside the unreserved set is written as the `%XY` escapes of its UTF-8
 * bytes. A Dafny `char` is a Unicode scalar value, so the lone surrogates
 * for which the JavaScript function throws cannot occur.
 */
module UriComponent {

  predicate IsAscii(s: string) {
    forall k :: 0 <= k < |s| ==> s[k] < 128 as char
  }

  /** The characters `encodeURIComponent` leaves as they are. */
  predicate Unescaped(c: char) {
    ('a' <= c <= 'z') || ('A' <= c <= 'Z') || ('0' <= c <= '9') || c in "-_.!~*'()"
  }

  /** The hyphen is unreserved: it is never escaped. */
  lemma HyphenUnescaped()
    ensures Unescaped('-')
  {
    assert "-_.!~*'()"[0] == '-';
  }

  /** An upper-case hexadecimal digit. */
  function HexDigit(n: nat): (c: char)
    requires n < 16
  {
    "0123456789ABCDEF"[n]
  }

  function HexValue(c: char): (n: nat)
    ensures n < 16
  {
    if '0' <= c <= '9' then c as int - '0' as int
    else if 'A' <= c <= 'F' then c as int - 'A' as int + 10
    else if 'a' <= c <= 'f' then c as int - 'a' as int + 10
    else 0
  }

  predicate IsHex(c: char) {
    ('0' <= c <= '9') || ('A' <= c <= 'F') || ('a' <= c <= 'f')
  }

  lemma HexDigitValue(n: nat)
    requires n < 16
    ensures IsHex(HexDigit(n)) && HexValue(HexDigit(n)) == n
  {
  }

  /** The UTF-8 bytes of a code point: one to four of them, the first
      telling how many follow and each following one carrying six bits. */
  function Utf8(cp: nat): (bs: seq<nat>)
    requires cp < 0x11_0000
    ensures 1 <= |bs| <= 4 && forall k :: 0 <= k < |bs| ==> bs[k] < 256
  {
    if cp < 0x80 then [cp]
    else if cp < 0x800 then [0xC0 + cp / 64, 0x80 + cp % 64]
    else if cp < 0x1_0000 then [0xE0 + cp / 4096, 0x80 + cp / 64 % 64, 0x80 + cp % 64]
    else [0xF0 + cp / 262144, 0x80 + cp / 4096 % 64, 0x80 + cp / 64 % 64, 0x80 + cp % 64]
  }

  /** `%XY` for each byte. */
  function Escape(bs: seq<nat>): (e: string)
    requires forall k :: 0 <= k < |bs| ==> bs[k] < 256
    ensures |e| == 3 * |bs|
  {
    if bs == [] then []
    else ['%', HexDigit(bs[0] / 16), HexDigit(bs[0] % 16)] + Escape(bs[1..])
  }

  /** One character: itself if unreserved, else the escapes of its bytes. */
  function EncodeChar(c: char): (e: string)
  {
    if Unescaped(c) then [c] else Escape(Utf8(c as nat))
  }

  /** `encodeURIComponent(s)`, character by character. */
  function EncodeUriComponent(s: string): string {
    if s == [] then [] else EncodeChar(s[0]) + EncodeUriComponent(s[1..])
  }

  /** The inverse of the encoding for escapes of ASCII characters. The
      function that builds links never decodes; this one exists only as the
      partner of `DecodeEncode`, which shows that the encoding loses nothing. */
  function DecodeUriComponent(s: string): string {
    if s == [] then []
    else if s[0] == '%' && |s| >= 3 && IsHex(s[1]) && IsHex(s[2]) then
      [(16 * HexValue(s[1]) + HexValue(s[2])) as char] + DecodeUriComponent(s[3..])
    else [s[0]] + DecodeUriComponent(s[1..])
  }

  /** An ASCII character is escaped as one `%XY` group. */
  lemma EncodeAsciiChar(c: char)
    requires c < 128 as char && !Unescaped(c)
    ensures EncodeChar(c) == ['%', HexDigit(c as int / 16), HexDigit(c as int % 16)]
  {
    assert Utf8(c as nat) == [c as nat];
    assert Escape([c as nat])[3..] == Escape([]);
  }

  lemma DecodeEncodedChar(c: char, rest: string)
    requires c < 128 as char
    ensures DecodeUriComponent(EncodeChar(c) + rest) == [c] + DecodeUriComponent(rest)
  {
    var e := EncodeChar(c) + rest;
    if !Unescaped(c) {
      EncodeAsciiChar(c);
      HexDigitValue(c as int / 16);
      HexDigitValue(c as int % 16);
      assert e[3..] == rest;
    } else {
      assert e[1..] == rest;
    }
  }

  /** Encoding works character by character, so it distributes over
      concatenation. */
  lemma {:induction false} EncodeAppend(a: string, b: string)
    ensures EncodeUriComponent(a + b) == EncodeUriComponent(a) + EncodeUriComponent(b)
  {
    if a == [] {
      assert a + b == b;
    } else {
      var ab := a + b;
      assert ab[0] == a[0] && ab[1..] == a[1..] + b;
      EncodeAppend(a[1..], b);
      var c, ea, eb := EncodeChar(a[0]), EncodeUriComponent(a[1..]), EncodeUriComponent(b);
      assert EncodeUriComponent(ab) == c + (ea + eb);
      assert c + (ea + eb) == (c + ea) + eb;
    }
  }

  /** Encoding one more character appends its encoding. */
  lemma EncodeSnoc(s: string, c: char)
    ensures EncodeUriComponent(s + [c]) == EncodeUriComponent(s) + EncodeChar(c)
  {
    EncodeAppend(s, [c]);
    EncodeOne(c);
  }

  /** Decoding gives back what was encoded, for ASCII text. */
  lemma {:induction false} DecodeEncode(s: string)
    requires IsAscii(s)
    ensures DecodeUriComponent(EncodeUriComponent(s)) == s
  {
    if s != [] {
      DecodeEncodedChar(s[0], EncodeUriComponent(s[1..]));
      DecodeEncode(s[1..]);
    }
  }

  /** The escapes of bytes hold only `%` and hexadecimal digits. */
  lemma {:induction false} EscapeIsSafe(bs: seq<nat>)
    requires forall k :: 0 <= k < |bs| ==> bs[k] < 256
    ensures forall k :: 0 <= k < |Escape(bs)| ==> Escape(bs)[k] == '%' || IsHex(Escape(bs)[k])
  {
    if bs != [] {
      EscapeIsSafe(bs[1..]);
      HexDigitValue(bs[0] / 16);
      HexDigitValue(bs[0] % 16);
      var tail := Escape(bs[1..]);
      assert forall k :: 0 <= k < |tail| ==> Escape(bs)[3 + k] == tail[k];
    }
  }

  /** The encoding holds only unescaped characters and `%` escapes: none of
      the characters that separate the parts of a URL query. */
  lemma {:induction false} EncodedIsSafe(s: string)
    ensures forall k :: 0 <= k < |EncodeUriComponent(s)| ==>
      Unescaped(EncodeUriComponent(s)[k]) || EncodeUriComponent(s)[k] == '%'
  {
    if s != [] {
      EncodedIsSafe(s[1..]);
      EscapeIsSafe(Utf8(s[0] as nat));
      var head, tail := EncodeChar(s[0]), EncodeUriComponent(s[1..]);
      assert forall k :: 0 <= k < |head| ==> Unescaped(head[k]) || head[k] == '%';
      assert forall k :: 0 <= k < |tail| ==> (head + tail)[|head| + k] == tail[k];
    }
  }

  /** Text made only of unescaped characters is its own encoding. */
  lemma {:induction false} EncodeUnescaped(s: string)
    requires forall k :: 0 <= k < |s| ==> Unescaped(s[k])
    ensures EncodeUriComponent(s) == s
  {
    if s != [] {
      EncodeUnescaped(s[1..]);
      assert s == [s[0]] + s[1..];
    }
  }

  /** Words joined by a space encode as the words joined by `%20`. */
  lemma EncodeWords(a: string, b: string)
    requires forall k :: 0 <= k < |b| ==> Unescaped(b[k])
    ensures EncodeUriComponent(a + " " + b) == EncodeUriComponent(a) + "%20" + b
  {
    EncodeAppend(a + " ", b);
    EncodeSnoc(a, ' ');
    EncodeUnescaped(b);
    SpaceEscape();
  }

  /** A space is escaped as `%20`. */
  lemma SpaceEscape()
    ensures EncodeChar(' ') == "%20"
  {
    EncodeAsciiChar(' ');
  }

  lemma EncodeOne(c: char)
    ensures EncodeUriComponent([c]) == EncodeChar(c)
  {
    assert [c][1..] == [];
  }
}
