/** Base64 with padding (section 4 of RFC 4648), as `btoa` produces it, and
    the decoder that inverts it. `btoa` takes a "binary string": a string
    each of whose characters stands for one octet. */
module Base64 {
  import opened Wrappers
  import opened Utf8

  /** The character of a six-bit value: `A`-`Z`, `a`-`z`, `0`-`9`, `+`, `/`. */
  function AlphabetChar(i: nat): char
    requires i < 64
  {
    if i < 26 then ('A' as int + i) as char
    else if i < 52 then ('a' as int + (i - 26)) as char
    else if i < 62 then ('0' as int + (i - 52)) as char
    else if i == 62 then '+'
    else '/'
  }

  /** The six-bit value of an alphabet character; `None` for anything else,
      the padding character `=` included. */
  function AlphabetIndex(c: char): (r: Option<nat>)
    ensures r.Some? ==> r.value < 64 && AlphabetChar(r.value) == c
  {
    if 'A' <= c <= 'Z' then Some(c as int - 'A' as int)
    else if 'a' <= c <= 'z' then Some(c as int - 'a' as int + 26)
    else if '0' <= c <= '9' then Some(c as int - '0' as int + 52)
    else if c == '+' then Some(62)
    else if c == '/' then Some(63)
    else None
  }

  predicate InAlphabet(c: char) {
    AlphabetIndex(c).Some?
  }

  lemma AlphabetIndexChar(i: nat)
    requires i < 64
    ensures AlphabetIndex(AlphabetChar(i)) == Some(i)
  {
  }

  /** Three octets become four characters, six bits each, high bits first. */
  function EncodeGroup(b0: Byte, b1: Byte, b2: Byte): string {
    [AlphabetChar(b0 / 4), AlphabetChar((b0 % 4) * 16 + b1 / 16),
     AlphabetChar((b1 % 16) * 4 + b2 / 64), AlphabetChar(b2 % 64)]
  }

  /** The padded encoding: a final group of one or two octets is filled
      with zero bits and completed with `==` or `=`. */
  function Encode(bs: seq<Byte>): string
    decreases |bs|
  {
    if |bs| == 0 then []
    else if |bs| == 1 then [AlphabetChar(bs[0] / 4), AlphabetChar((bs[0] % 4) * 16), '=', '=']
    else if |bs| == 2 then
      [AlphabetChar(bs[0] / 4), AlphabetChar((bs[0] % 4) * 16 + bs[1] / 16), AlphabetChar((bs[1] % 16) * 4), '=']
    else EncodeGroup(bs[0], bs[1], bs[2]) + Encode(bs[3..])
  }

  /** Padded decoding: `None` when the length is not a multiple of four, a
      character lies outside the alphabet, or padding is not at the end. */
  function Decode(s: string): Option<seq<Byte>>
    decreases |s|
  {
    if |s| == 0 then Some([])
    else if |s| < 4 then None
    else
      var v0 :- AlphabetIndex(s[0]);
      var v1 :- AlphabetIndex(s[1]);
      if |s| == 4 && s[2] == '=' && s[3] == '=' then Some([v0 * 4 + v1 / 16])
      else
        var v2 :- AlphabetIndex(s[2]);
        if |s| == 4 && s[3] == '=' then Some([v0 * 4 + v1 / 16, (v1 % 16) * 16 + v2 / 4])
        else
          var v3 :- AlphabetIndex(s[3]);
          var rest :- Decode(s[4..]);
          Some([v0 * 4 + v1 / 16, (v1 % 16) * 16 + v2 / 4, (v2 % 4) * 64 + v3] + rest)
  }

  /** Four characters per started group of three octets. */
  lemma {:induction false} EncodeLength(bs: seq<Byte>)
    ensures |Encode(bs)| == 4 * ((|bs| + 2) / 3)
    decreases |bs|
  {
    if |bs| >= 3 {
      EncodeLength(bs[3..]);
      EncodeCons(bs);
      assert (|bs| + 2) / 3 == 1 + (|bs[3..]| + 2) / 3;
    }
  }

  /** How many `=` close the encoding of `n` octets. */
  function PadCount(n: nat): nat {
    (3 - n % 3) % 3
  }

  /** All characters are from the alphabet except the last `pad`, which
      are `=`. */
  predicate WellPadded(r: string, pad: nat) {
    pad <= |r| &&
    forall i :: 0 <= i < |r| ==> if i < |r| - pad then InAlphabet(r[i]) else r[i] == '='
  }

  lemma AlphabetCharIn(i: nat)
    requires i < 64
    ensures InAlphabet(AlphabetChar(i)) && AlphabetChar(i) != '='
  {
    AlphabetIndexChar(i);
  }

  /** A full group is four alphabet characters. */
  lemma GroupInAlphabet(b0: Byte, b1: Byte, b2: Byte)
    ensures var g := EncodeGroup(b0, b1, b2);
      |g| == 4 && forall i :: 0 <= i < 4 ==> InAlphabet(g[i])
  {
    AlphabetCharIn(b0 / 4);
    AlphabetCharIn((b0 % 4) * 16 + b1 / 16);
    AlphabetCharIn((b1 % 16) * 4 + b2 / 64);
    AlphabetCharIn(b2 % 64);
  }

  /** Alphabet characters in front keep the padding at the end. */
  lemma WellPaddedPrefix(g: string, t: string, p: nat)
    requires forall i :: 0 <= i < |g| ==> InAlphabet(g[i])
    requires WellPadded(t, p)
    ensures WellPadded(g + t, p)
  {
    var r := g + t;
    forall i | 0 <= i < |r|
      ensures if i < |r| - p then InAlphabet(r[i]) else r[i] == '='
    {
      if i >= |g| {
        assert r[i] == t[i - |g|];
      }
    }
  }

  lemma EncodeCharactersOne(bs: seq<Byte>)
    requires |bs| == 1
    ensures WellPadded(Encode(bs), PadCount(|bs|))
  {
    AlphabetCharIn(bs[0] / 4);
    AlphabetCharIn((bs[0] % 4) * 16);
  }

  lemma EncodeCharactersTwo(bs: seq<Byte>)
    requires |bs| == 2
    ensures WellPadded(Encode(bs), PadCount(|bs|))
  {
    AlphabetCharIn(bs[0] / 4);
    AlphabetCharIn((bs[0] % 4) * 16 + bs[1] / 16);
    AlphabetCharIn((bs[1] % 16) * 4);
  }

  /** Every character is from the alphabet except the padding, which is
      at the end and has one `=` for each octet missing from the final
      group of three, so never more than two. */
  lemma {:induction false} EncodeCharacters(bs: seq<Byte>)
    ensures WellPadded(Encode(bs), PadCount(|bs|)) && PadCount(|bs|) <= 2
    decreases |bs|
  {
    if |bs| == 0 {
    } else if |bs| == 1 {
      EncodeCharactersOne(bs);
    } else if |bs| == 2 {
      EncodeCharactersTwo(bs);
    } else {
      EncodeCharacters(bs[3..]);
      assert PadCount(|bs|) == PadCount(|bs| - 3);
      GroupInAlphabet(bs[0], bs[1], bs[2]);
      EncodeCons(bs);
      WellPaddedPrefix(EncodeGroup(bs[0], bs[1], bs[2]), Encode(bs[3..]), PadCount(|bs|));
    }
  }

  lemma DecodeGroup(b0: Byte, b1: Byte, b2: Byte)
    ensures var v0, v1, v2, v3 := b0 / 4, (b0 % 4) * 16 + b1 / 16, (b1 % 16) * 4 + b2 / 64, b2 % 64;
      && v0 * 4 + v1 / 16 == b0
      && (v1 % 16) * 16 + v2 / 4 == b1
      && (v2 % 4) * 64 + v3 == b2
  {
  }

  lemma DecodeOne(b0: Byte)
    ensures Decode(Encode([b0])) == Some([b0])
  {
    AlphabetIndexChar(b0 / 4);
    AlphabetIndexChar((b0 % 4) * 16);
  }

  lemma DecodeTwo(b0: Byte, b1: Byte)
    ensures Decode(Encode([b0, b1])) == Some([b0, b1])
  {
    var s := Encode([b0, b1]);
    AlphabetIndexChar(b0 / 4);
    AlphabetIndexChar((b0 % 4) * 16 + b1 / 16);
    AlphabetIndexChar((b1 % 16) * 4);
    AlphabetCharIn((b1 % 16) * 4);
    DecodeGroup(b0, b1, 0);
    assert s[2] != '=' && s[3] == '=' && |s| == 4;
  }

  /** A full group followed by anything decodes to its three octets
      followed by the decoding of the rest. */
  lemma DecodeThree(b0: Byte, b1: Byte, b2: Byte, rest: string)
    ensures Decode(EncodeGroup(b0, b1, b2) + rest)
         == (match Decode(rest) case None => None case Some(t) => Some([b0, b1, b2] + t))
  {
    var v0, v1 := b0 / 4, (b0 % 4) * 16 + b1 / 16;
    var v2, v3 := (b1 % 16) * 4 + b2 / 64, b2 % 64;
    AlphabetIndexChar(v0);
    AlphabetIndexChar(v1);
    AlphabetIndexChar(v2);
    AlphabetIndexChar(v3);
    AlphabetCharIn(v2);
    AlphabetCharIn(v3);
    DecodeGroup(b0, b1, b2);
    DecodeChars(AlphabetChar(v0), AlphabetChar(v1), AlphabetChar(v2), AlphabetChar(v3), v0, v1, v2, v3, rest);
  }

  /** Four alphabet characters, none of them `=`, decode as one group. */
  lemma DecodeChars(c0: char, c1: char, c2: char, c3: char, v0: nat, v1: nat, v2: nat, v3: nat, rest: string)
    requires AlphabetIndex(c0) == Some(v0) && AlphabetIndex(c1) == Some(v1)
    requires AlphabetIndex(c2) == Some(v2) && AlphabetIndex(c3) == Some(v3)
    requires c2 != '=' && c3 != '='
    ensures Decode([c0, c1, c2, c3] + rest)
         == (match Decode(rest)
             case None => None
             case Some(t) => Some([v0 * 4 + v1 / 16, (v1 % 16) * 16 + v2 / 4, (v2 % 4) * 64 + v3] + t))
  {
    var s := [c0, c1, c2, c3] + rest;
    assert s[4..] == rest;
  }

  lemma DecodeEncodeOne(bs: seq<Byte>)
    requires |bs| == 1
    ensures Decode(Encode(bs)) == Some(bs)
  {
    assert bs == [bs[0]];
    DecodeOne(bs[0]);
  }

  lemma DecodeEncodeTwo(bs: seq<Byte>)
    requires |bs| == 2
    ensures Decode(Encode(bs)) == Some(bs)
  {
    assert bs == [bs[0], bs[1]];
    DecodeTwo(bs[0], bs[1]);
  }

  /** A full leading group decodes ahead of whatever the rest decodes to. */
  lemma DecodeEncodeCons(bs: seq<Byte>)
    requires |bs| >= 3 && Decode(Encode(bs[3..])) == Some(bs[3..])
    ensures Decode(Encode(bs)) == Some(bs)
  {
    EncodeCons(bs);
    DecodeThree(bs[0], bs[1], bs[2], Encode(bs[3..]));
    SplitThree(bs);
  }

  lemma EncodeCons(bs: seq<Byte>)
    requires |bs| >= 3
    ensures Encode(bs) == EncodeGroup(bs[0], bs[1], bs[2]) + Encode(bs[3..])
  {
  }

  lemma SplitThree<T>(s: seq<T>)
    requires |s| >= 3
    ensures [s[0], s[1], s[2]] + s[3..] == s
  {
  }

  /** Decoding inverts encoding. */
  lemma {:induction false} DecodeEncode(bs: seq<Byte>)
    ensures Decode(Encode(bs)) == Some(bs)
    decreases |bs|
  {
    if |bs| == 0 {
    } else if |bs| == 1 {
      DecodeEncodeOne(bs);
    } else if |bs| == 2 {
      DecodeEncodeTwo(bs);
    } else {
      DecodeEncode(bs[3..]);
      DecodeEncodeCons(bs);
    }
  }

  /** The string whose characters have the given octets as codes. */
  function ByteString(bs: seq<Byte>): (s: string)
    ensures |s| == |bs| && forall i :: 0 <= i < |bs| ==> s[i] as int == bs[i]
  {
    seq(|bs|, i requires 0 <= i < |bs| => bs[i] as char)
  }

  /** `btoa(s)`: the encoding of the octets the characters stand for;
      `None` (an `InvalidCharacterError`) when a character is above U+00FF. */
  function Btoa(s: string): (r: Option<string>)
    ensures r.Some? <==> forall i :: 0 <= i < |s| ==> s[i] as int < 256
  {
    if forall i :: 0 <= i < |s| ==> s[i] as int < 256 then
      Some(Encode(seq(|s|, i requires 0 <= i < |s| => s[i] as int as Byte)))
    else None
  }

  /** `btoa` of a binary string encodes exactly its octets. */
  lemma BtoaByteString(bs: seq<Byte>)
    ensures Btoa(ByteString(bs)) == Some(Encode(bs))
  {
    var s := ByteString(bs);
    assert seq(|s|, i requires 0 <= i < |s| => s[i] as int as Byte) == bs;
  }
}
