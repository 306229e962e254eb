/** The two URI-component functions the application calls:
    `encodeURIComponent` (ECMA-262 section 19.2.6.5), which writes every
    character but the unreserved ones as `%XX` escapes of its UTF-8 octets,
    and the legacy `unescape` (ECMA-262 section B.2.1.2), which reads `%XX`
    and `%uXXXX` escapes back as single code units. */
module UriCoding {
  import opened Wrappers
  import opened JsStrings
  import opened Utf8
  import Base64

  /** The characters `encodeURIComponent` leaves as they are: ASCII letters
      and digits and `- _ . ! ~ * ' ( )`. */
  predicate IsUnreserved(c: char) {
    IsAsciiAlnum(c) || c == '-' || c == '_' || c == '.' || c == '!' || c == '~'
    || c == '*' || c == '\'' || c == '(' || c == ')'
  }

  /** An upper-case hex digit. */
  function HexUpper(d: nat): (c: char)
    requires d < 16
    ensures IsAsciiAlnum(c) && c != 'u'
    ensures HexDigitValue(c) == Some(d)
  {
    if d < 10 then DigitChar(d) else ('A' as int + (d - 10)) as char
  }

  /** `%XX` for every octet. */
  function PercentEscapes(bs: seq<Byte>): (r: string)
    ensures |r| == 3 * |bs|
    ensures forall i :: 0 <= i < |r| ==> IsUnreserved(r[i]) || r[i] == '%'
  {
    if |bs| == 0 then ""
    else ['%', HexUpper(bs[0] / 16), HexUpper(bs[0] % 16)] + PercentEscapes(bs[1..])
  }

  /** One character as `encodeURIComponent` writes it. */
  function EncodeChar(c: char): string {
    if IsUnreserved(c) then [c] else PercentEscapes(Utf8.EncodeChar(c))
  }

  /** `encodeURIComponent(s)`. Its output holds only unreserved characters
      and `%`, so in particular no `/`, `?` or `#`. */
  function EncodeURIComponent(s: string): (r: string)
    ensures forall i :: 0 <= i < |r| ==> IsUnreserved(r[i]) || r[i] == '%'
    ensures |r| >= |s|
    ensures (forall i :: 0 <= i < |s| ==> IsUnreserved(s[i])) ==> r == s
  {
    if |s| == 0 then "" else EncodeChar(s[0]) + EncodeURIComponent(s[1..])
  }

  /** `unescape(s)`: `%uXXXX` is one code unit, `%XX` one character below
      U+0100, and anything else, stray `%` included, stays as it is. */
  function Unescape(s: string): (r: string)
    ensures |r| <= |s|
    decreases |s|
  {
    if |s| == 0 then ""
    else if s[0] == '%' && |s| >= 6 && s[1] == 'u' && Hex4(s, 2).Some? then
      [UnitChar(Hex4(s, 2).value)] + Unescape(s[6..])
    else if s[0] == '%' && |s| >= 3 && HexDigitValue(s[1]).Some? && HexDigitValue(s[2]).Some? then
      [(16 * HexDigitValue(s[1]).value + HexDigitValue(s[2]).value) as char] + Unescape(s[3..])
    else [s[0]] + Unescape(s[1..])
  }

  lemma ByteStringCons(bs: seq<Byte>)
    requires |bs| > 0
    ensures Base64.ByteString(bs) == [bs[0] as char] + Base64.ByteString(bs[1..])
  {
  }

  lemma ByteStringAppend(a: seq<Byte>, b: seq<Byte>)
    ensures Base64.ByteString(a + b) == Base64.ByteString(a) + Base64.ByteString(b)
  {
  }

  /** Two byte strings that read the same have the same octets. */
  lemma ByteStringInjective(a: seq<Byte>, b: seq<Byte>)
    requires Base64.ByteString(a) == Base64.ByteString(b)
    ensures a == b
  {
    assert |a| == |b|;
    forall i | 0 <= i < |a|
      ensures a[i] == b[i]
    {
      assert Base64.ByteString(a)[i] == Base64.ByteString(b)[i];
    }
  }

  /** One `%XX` escape reads back as the character with that code. */
  lemma UnescapeOne(b: Byte, tail: string)
    ensures Unescape(['%', HexUpper(b / 16), HexUpper(b % 16)] + tail) == [b as char] + Unescape(tail)
  {
    var s := ['%', HexUpper(b / 16), HexUpper(b % 16)] + tail;
    assert s[1] == HexUpper(b / 16) && s[2] == HexUpper(b % 16);
    assert s[3..] == tail;
    assert (16 * (b / 16) + b % 16) as char == b as char;
  }

  lemma Regroup(a: string, b: string, c: string)
    ensures (a + b) + c == a + (b + c)
  {
  }

  /** `unescape` reads each `%XX` back as the character with that code. */
  lemma {:induction false} UnescapePercent(bs: seq<Byte>, rest: string)
    ensures Unescape(PercentEscapes(bs) + rest) == Base64.ByteString(bs) + Unescape(rest)
    decreases |bs|
  {
    if |bs| == 0 {
      assert PercentEscapes(bs) + rest == rest;
      assert Base64.ByteString(bs) == [];
    } else {
      UnescapePercent(bs[1..], rest);
      UnescapePercentCons(bs, rest);
    }
  }

  lemma UnescapePercentCons(bs: seq<Byte>, rest: string)
    requires |bs| > 0
    requires Unescape(PercentEscapes(bs[1..]) + rest) == Base64.ByteString(bs[1..]) + Unescape(rest)
    ensures Unescape(PercentEscapes(bs) + rest) == Base64.ByteString(bs) + Unescape(rest)
  {
    var b := bs[0];
    var esc := ['%', HexUpper(b / 16), HexUpper(b % 16)];
    assert PercentEscapes(bs) == esc + PercentEscapes(bs[1..]);
    Regroup(esc, PercentEscapes(bs[1..]), rest);
    UnescapeOne(b, PercentEscapes(bs[1..]) + rest);
    ByteStringCons(bs);
    Regroup([b as char], Base64.ByteString(bs[1..]), Unescape(rest));
  }

  /** One written character reads back as the octets of its UTF-8 form. */
  lemma UnescapeEncodeChar(c: char, rest: string)
    ensures Unescape(EncodeChar(c) + rest) == Base64.ByteString(Utf8.EncodeChar(c)) + Unescape(rest)
  {
    if IsUnreserved(c) {
      assert ([c] + rest)[1..] == rest;
      assert Base64.ByteString(Utf8.EncodeChar(c)) == [c];
    } else {
      UnescapePercent(Utf8.EncodeChar(c), rest);
    }
  }

  /** `unescape(encodeURIComponent(s))` is the binary string of the UTF-8
      octets of `s`: the idiom that turns text into something `btoa`
      accepts. */
  lemma {:induction false} UnescapeEncoded(s: string)
    ensures Unescape(EncodeURIComponent(s)) == Base64.ByteString(Utf8.Encode(s))
    decreases |s|
  {
    if |s| == 0 {
      assert Base64.ByteString([]) == [];
    } else {
      UnescapeEncodeChar(s[0], EncodeURIComponent(s[1..]));
      UnescapeEncoded(s[1..]);
      ByteStringAppend(Utf8.EncodeChar(s[0]), Utf8.Encode(s[1..]));
    }
  }

  /** Different strings never encode to the same component. */
  lemma EncodeURIComponentInjective(a: string, b: string)
    requires EncodeURIComponent(a) == EncodeURIComponent(b)
    ensures a == b
  {
    UnescapeEncoded(a);
    UnescapeEncoded(b);
    ByteStringInjective(Utf8.Encode(a), Utf8.Encode(b));
    Utf8.DecodeEncode(a);
    Utf8.DecodeEncode(b);
  }
}
