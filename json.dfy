/** The JSON text format (RFC 8259) as `JSON.parse` reads it and as
    `JSON.stringify` writes an object whose members are strings, together
    with the JavaScript notions the description decoder applies to a parse
    result: truthiness and property access. */
module Json {
  import opened Wrappers
  import opened JsStrings

  /** A parsed JSON value. A number keeps its digits as written; an object
      keeps its members in source order, duplicates included. */
  datatype Json =
    | Null
    | Bool(b: bool)
    | Num(negative: bool, integral: string, fraction: string, exponent: int)
    | Str(s: string)
    | Arr(items: seq<Json>)
    | Obj(members: seq<(string, Json)>)

  // ---------------------------------------------------------------------
  // JavaScript semantics of a parsed value
  // ---------------------------------------------------------------------

  predicate HasNonZeroDigit(s: string) {
    exists i :: 0 <= i < |s| && s[i] != '0'
  }

  /** `Boolean(v)`: `null`, `false`, a zero number and the empty string are
      falsy; every array and object is truthy, empty or not. */
  predicate Truthy(j: Json) {
    match j
    case Null => false
    case Bool(b) => b
    case Num(_, integral, fraction, _) => HasNonZeroDigit(integral) || HasNonZeroDigit(fraction)
    case Str(s) => |s| > 0
    case Arr(_) => true
    case Obj(_) => true
  }

  /** The outcome of reading a property: `null.p` throws a `TypeError`, a
      missing property is `undefined`. */
  datatype Lookup = Throws | Undefined | Found(value: Json)

  /** The value of the last member named `key`: `JSON.parse` lets a later
      duplicate overwrite an earlier one. */
  function LastMember(ms: seq<(string, Json)>, key: string): (r: Lookup)
    ensures r.Found? <==> exists i :: 0 <= i < |ms| && ms[i].0 == key
    ensures r.Found? ==> exists i :: 0 <= i < |ms| && ms[i] == (key, r.value)
                                  && forall j :: i < j < |ms| ==> ms[j].0 != key
    ensures !r.Throws?
  {
    if |ms| == 0 then Undefined
    else if ms[|ms| - 1].0 == key then Found(ms[|ms| - 1].1)
    else
      var r := LastMember(ms[..|ms| - 1], key);
      assert forall i :: 0 <= i < |ms| - 1 ==> ms[..|ms| - 1][i] == ms[i];
      r
  }

  /** `v[key]` for a parse result `v`, for the keys `body` and `link`.
      Numbers, booleans and arrays have no such property of their own or
      inherited, and are taken to have none here. A string does inherit
      `link`, the legacy `String.prototype.link` method, a truthy function;
      the decoder never reads it, because a string's `body` is undefined
      and fails the test first. */
  function GetProperty(j: Json, key: string): (r: Lookup)
    ensures r.Throws? <==> j.Null?
    ensures r.Found? ==> j.Obj?
  {
    match j
    case Null => Throws
    case Obj(ms) => LastMember(ms, key)
    case _ => Undefined
  }

  predicate IsTruthy(l: Lookup) {
    l.Found? && Truthy(l.value)
  }

  // ---------------------------------------------------------------------
  // JSON.parse
  // ---------------------------------------------------------------------

  predicate IsWs(c: char) {
    c == ' ' || c == '\t' || c == '\n' || c == '\r'
  }

  function SkipWs(s: string): (r: string)
    ensures |r| <= |s| && r == s[|s| - |r|..]
    ensures r == [] || !IsWs(r[0])
    ensures s == [] || !IsWs(s[0]) ==> r == s
    decreases |s|
  {
    if |s| > 0 && IsWs(s[0]) then SkipWs(s[1..]) else s
  }

  /** The character a short escape `\x` stands for. */
  function ShortEscape(c: char): Option<char> {
    if c == '"' then Some('"')
    else if c == '\\' then Some('\\')
    else if c == '/' then Some('/')
    else if c == 'b' then Some('\U{8}')
    else if c == 'f' then Some('\U{C}')
    else if c == 'n' then Some('\n')
    else if c == 'r' then Some('\r')
    else if c == 't' then Some('\t')
    else None
  }

  predicate IsHighSurrogate(u: nat) {
    0xD800 <= u < 0xDC00
  }

  /** A `\uXXXX\uXXXX` surrogate pair at `s[0..12]`. */
  predicate PairAt(s: string, hi: nat) {
    && IsHighSurrogate(hi) && |s| >= 12 && s[6] == '\\' && s[7] == 'u'
    && Hex4(s, 8).Some? && 0xDC00 <= Hex4(s, 8).value < 0xE000
  }

  /** The characters of a string literal after its opening quote, and what
      follows the closing quote. Raw control characters are refused. */
  function ParseChars(s: string): (r: Option<(string, string)>)
    ensures r.Some? ==> |r.value.1| < |s|
    decreases |s|
  {
    if |s| == 0 then None
    else if s[0] == '"' then Some(("", s[1..]))
    else if s[0] == '\\' then
      if |s| < 2 then None
      else if s[1] == 'u' then
        if |s| < 6 then None
        else
          var u :- Hex4(s, 2);
          if PairAt(s, u) then
            var lo := Hex4(s, 8).value;
            var p :- ParseChars(s[12..]);
            Some(([(0x1_0000 + (u - 0xD800) * 0x400 + (lo - 0xDC00)) as char] + p.0, p.1))
          else
            var p :- ParseChars(s[6..]);
            Some(([UnitChar(u)] + p.0, p.1))
      else
        var c :- ShortEscape(s[1]);
        var p :- ParseChars(s[2..]);
        Some(([c] + p.0, p.1))
    else if s[0] as int < 0x20 then None
    else
      var p :- ParseChars(s[1..]);
      Some(([s[0]] + p.0, p.1))
  }

  /** The length of the run of digits at the front of `s`. */
  function DigitRun(s: string): (n: nat)
    ensures n <= |s| && AllDigits(s[..n]) && (n == |s| || !IsDigit(s[n]))
  {
    if |s| == 0 || !IsDigit(s[0]) then 0
    else
      var n := DigitRun(s[1..]);
      assert s[..n + 1] == [s[0]] + s[1..][..n];
      n + 1
  }

  /** An optional `.digits` part, which needs at least one digit. */
  function ParseFraction(s: string): (r: Option<(string, string)>)
    ensures r.Some? ==> |r.value.1| <= |s|
  {
    if |s| > 0 && s[0] == '.' then
      var n := DigitRun(s[1..]);
      if n == 0 then None else Some((s[1..][..n], s[1 + n..]))
    else Some(("", s))
  }

  /** An optional `e`/`E` exponent with an optional sign and at least one
      digit. */
  function ParseExponent(s: string): (r: Option<(int, string)>)
    ensures r.Some? ==> |r.value.1| <= |s|
  {
    if |s| > 0 && (s[0] == 'e' || s[0] == 'E') then
      var t := s[1..];
      var neg := |t| > 0 && t[0] == '-';
      var u := if |t| > 0 && (t[0] == '-' || t[0] == '+') then t[1..] else t;
      var n := DigitRun(u);
      if n == 0 then None
      else
        var v: int := DigitsValue(u[..n]);
        var e: int := if neg then -v else v;
        Some((e, u[n..]))
    else Some((0, s))
  }

  /** `-? (0 | [1-9][0-9]*) fraction? exponent?`. */
  function ParseNumber(s: string): (r: Option<(Json, string)>)
    ensures r.Some? ==> |r.value.1| < |s|
  {
    var neg := |s| > 0 && s[0] == '-';
    var t := if neg then s[1..] else s;
    if |t| == 0 || !IsDigit(t[0]) then None
    else
      var n := if t[0] == '0' then 1 else DigitRun(t);
      var f :- ParseFraction(t[n..]);
      var e :- ParseExponent(f.1);
      Some((Num(neg, t[..n], f.0, e.0), e.1))
  }

  /** A value at the very front of `s`, and what follows it. */
  function ParseValue(s: string): (r: Option<(Json, string)>)
    ensures r.Some? ==> |r.value.1| < |s|
    decreases |s|, 2
  {
    if |s| == 0 then None
    else if s[0] == '{' then ParseObject(s[1..])
    else if s[0] == '[' then ParseArray(s[1..])
    else if s[0] == '"' then
      var p :- ParseChars(s[1..]);
      Some((Str(p.0), p.1))
    else if StartsWith(s, "true") then Some((Bool(true), s[4..]))
    else if StartsWith(s, "false") then Some((Bool(false), s[5..]))
    else if StartsWith(s, "null") then Some((Null, s[4..]))
    else ParseNumber(s)
  }

  /** An object after its `{`. */
  function ParseObject(s: string): (r: Option<(Json, string)>)
    ensures r.Some? ==> |r.value.1| < |s|
    decreases |s|, 1
  {
    var t := SkipWs(s);
    if |t| > 0 && t[0] == '}' then Some((Obj([]), t[1..]))
    else ParseMembers(t, [])
  }

  /** `"key" : value` members separated by commas up to the closing `}`,
      appended to the members `acc` already read. */
  function ParseMembers(s: string, acc: seq<(string, Json)>): (r: Option<(Json, string)>)
    ensures r.Some? ==> |r.value.1| < |s|
    decreases |s|, 0
  {
    if |s| == 0 || s[0] != '"' then None
    else
      var key :- ParseChars(s[1..]);
      var t := SkipWs(key.1);
      if |t| == 0 || t[0] != ':' then None
      else
        var v :- ParseValue(SkipWs(t[1..]));
        var w := SkipWs(v.1);
        if |w| == 0 then None
        else if w[0] == ',' then ParseMembers(SkipWs(w[1..]), acc + [(key.0, v.0)])
        else if w[0] == '}' then Some((Obj(acc + [(key.0, v.0)]), w[1..]))
        else None
  }

  /** An array after its `[`. */
  function ParseArray(s: string): (r: Option<(Json, string)>)
    ensures r.Some? ==> |r.value.1| < |s|
    decreases |s|, 4
  {
    var t := SkipWs(s);
    if |t| > 0 && t[0] == ']' then Some((Arr([]), t[1..]))
    else ParseElements(t, [])
  }

  /** Values separated by commas up to the closing `]`. */
  function ParseElements(s: string, acc: seq<Json>): (r: Option<(Json, string)>)
    ensures r.Some? ==> |r.value.1| < |s|
    decreases |s|, 3
  {
    var v :- ParseValue(s);
    var w := SkipWs(v.1);
    if |w| == 0 then None
    else if w[0] == ',' then ParseElements(SkipWs(w[1..]), acc + [v.0])
    else if w[0] == ']' then Some((Arr(acc + [v.0]), w[1..]))
    else None
  }

  /** `JSON.parse(text)`: one value with optional whitespace around it;
      `None` stands for the `SyntaxError` it throws on anything else. */
  function Parse(text: string): Option<Json> {
    var v :- ParseValue(SkipWs(text));
    if SkipWs(v.1) == [] then Some(v.0) else None
  }

  /** The characters a JSON value can begin with. */
  predicate CanStartValue(c: char) {
    c == '{' || c == '[' || c == '"' || c == '-' || IsDigit(c) || c == 't' || c == 'f' || c == 'n'
  }

  /** A value cannot begin with a character that starts no JSON token. */
  lemma ParseValueRejectsStart(s: string)
    requires |s| > 0 && !CanStartValue(s[0])
    ensures ParseValue(s) == None
  {
    assert !StartsWith(s, "true") && !StartsWith(s, "false") && !StartsWith(s, "null");
  }

  /** A text whose first non-blank character cannot start a value is not
      JSON. */
  lemma ParseRejectsStart(text: string)
    requires |text| > 0 && !IsWs(text[0])
    requires !CanStartValue(text[0])
    ensures Parse(text) == None
  {
    assert SkipWs(text) == text;
    ParseValueRejectsStart(text);
  }

  // ---------------------------------------------------------------------
  // JSON.stringify of an object whose members are strings
  // ---------------------------------------------------------------------

  function HexLower(d: nat): char
    requires d < 16
  {
    if d < 10 then DigitChar(d) else ('a' as int + (d - 10)) as char
  }

  /** One character inside a string literal, as `QuoteJSONString` writes
      it: the two-character escapes, `\u00xx` for the other control
      characters, and every other character as it is. */
  function QuoteChar(c: char): string {
    if c == '\U{8}' then "\\b"
    else if c == '\t' then "\\t"
    else if c == '\n' then "\\n"
    else if c == '\U{C}' then "\\f"
    else if c == '\r' then "\\r"
    else if c == '"' then "\\\""
    else if c == '\\' then "\\\\"
    else if c as int < 0x20 then "\\u00" + [HexLower(c as int / 16), HexLower(c as int % 16)]
    else [c]
  }

  function QuoteChars(s: string): string {
    if |s| == 0 then "" else QuoteChar(s[0]) + QuoteChars(s[1..])
  }

  /** The string literal of `s`. */
  function Quote(s: string): string {
    "\"" + QuoteChars(s) + "\""
  }

  function Member(m: (string, string)): string {
    Quote(m.0) + ":" + Quote(m.1)
  }

  function Members(ms: seq<(string, string)>): string {
    if |ms| == 0 then ""
    else if |ms| == 1 then Member(ms[0])
    else Member(ms[0]) + "," + Members(ms[1..])
  }

  /** `JSON.stringify(o)` for an object literal whose members, in order,
      are the string-valued `ms`: no whitespace, keys quoted. */
  function StringifyObject(ms: seq<(string, string)>): string {
    "{" + Members(ms) + "}"
  }

  /** The parsed form of such an object. */
  function StrMembers(ms: seq<(string, string)>): (r: seq<(string, Json)>)
    ensures |r| == |ms|
    ensures forall i :: 0 <= i < |ms| ==> r[i] == (ms[i].0, Str(ms[i].1))
  {
    seq(|ms|, i requires 0 <= i < |ms| => (ms[i].0, Str(ms[i].1)))
  }

  // ---------------------------------------------------------------------
  // Reading back what JSON.stringify wrote
  // ---------------------------------------------------------------------

  /** `c` in front of a string-literal parse result. */
  function Prepend(c: char, r: Option<(string, string)>): Option<(string, string)> {
    match r
    case None => None
    case Some(p) => Some(([c] + p.0, p.1))
  }

  lemma HexLowerValue(d: nat)
    requires d < 16
    ensures HexDigitValue(HexLower(d)) == Some(d)
  {
  }

  /** A character written as itself. */
  lemma ParseRawChar(c: char, tail: string)
    requires c as int >= 0x20 && c != '"' && c != '\\'
    ensures ParseChars([c] + tail) == Prepend(c, ParseChars(tail))
  {
    assert ([c] + tail)[1..] == tail;
  }

  /** A character written as a two-character escape `\e`. */
  lemma ParseShortEscape(c: char, e: char, tail: string)
    requires e != 'u' && ShortEscape(e) == Some(c)
    ensures ParseChars(['\\', e] + tail) == Prepend(c, ParseChars(tail))
  {
    assert (['\\', e] + tail)[2..] == tail;
  }

  /** A control character written as `\u00xx`. */
  lemma ParseControlEscape(c: char, tail: string)
    requires c as int < 0x20
    ensures ParseChars("\\u00" + [HexLower(c as int / 16), HexLower(c as int % 16)] + tail)
         == Prepend(c, ParseChars(tail))
  {
    var d := c as int;
    var s := "\\u00" + [HexLower(d / 16), HexLower(d % 16)] + tail;
    HexLowerValue(d / 16);
    HexLowerValue(d % 16);
    assert s[1] == 'u' && s[2] == '0' && s[3] == '0';
    assert s[4] == HexLower(d / 16) && s[5] == HexLower(d % 16);
    assert Hex4(s, 2) == Some(d);
    assert !PairAt(s, d);
    assert UnitChar(d) == c;
    assert s[6..] == tail;
  }

  /** Reading one written character gives the character back. */
  lemma ParseQuoteChar(c: char, tail: string)
    ensures ParseChars(QuoteChar(c) + tail) == Prepend(c, ParseChars(tail))
  {
    if c == '\U{8}' {
      ParseShortEscape(c, 'b', tail);
    } else if c == '\t' {
      ParseShortEscape(c, 't', tail);
    } else if c == '\n' {
      ParseShortEscape(c, 'n', tail);
    } else if c == '\U{C}' {
      ParseShortEscape(c, 'f', tail);
    } else if c == '\r' {
      ParseShortEscape(c, 'r', tail);
    } else if c == '"' {
      ParseShortEscape(c, '"', tail);
    } else if c == '\\' {
      ParseShortEscape(c, '\\', tail);
    } else if c as int < 0x20 {
      ParseControlEscape(c, tail);
    } else {
      ParseRawChar(c, tail);
    }
  }

  /** The characters of a written string literal read back as the string,
      and reading stops at its closing quote. */
  lemma {:induction false} ParseQuoteChars(s: string, rest: string)
    ensures ParseChars(QuoteChars(s) + "\"" + rest) == Some((s, rest))
  {
    if |s| == 0 {
      assert QuoteChars(s) + "\"" + rest == "\"" + rest;
    } else {
      var tail := QuoteChars(s[1..]) + "\"" + rest;
      assert QuoteChars(s) + "\"" + rest == QuoteChar(s[0]) + tail;
      ParseQuoteChar(s[0], tail);
      ParseQuoteChars(s[1..], rest);
      assert [s[0]] + s[1..] == s;
    }
  }

  /** A written string literal reads back as that string. */
  lemma ParseQuoted(s: string, rest: string)
    ensures ParseValue(Quote(s) + rest) == Some((Str(s), rest))
  {
    var t := Quote(s) + rest;
    assert t == "\"" + (QuoteChars(s) + "\"" + rest);
    ParseQuoteChars(s, rest);
  }

  lemma MembersStart(ms: seq<(string, string)>)
    requires |ms| > 0
    ensures |Members(ms)| > 0 && Members(ms)[0] == '"'
  {
  }

  /** A written string literal: its opening quote, then characters that
      read back as the string up to the closing quote. */
  lemma ParseQuotedChars(k: string, t: string)
    ensures |Quote(k) + t| > 0 && (Quote(k) + t)[0] == '"'
    ensures ParseChars((Quote(k) + t)[1..]) == Some((k, t))
  {
    assert (Quote(k) + t)[1..] == QuoteChars(k) + "\"" + t;
    ParseQuoteChars(k, t);
  }

  /** One step of reading members, over any text. */
  lemma ParseMembersStep(s: string, acc: seq<(string, Json)>, k: string, t: string, v: Json, w: string)
    requires |s| > 0 && s[0] == '"' && ParseChars(s[1..]) == Some((k, t))
    requires |t| > 0 && t[0] == ':'
    requires ParseValue(SkipWs(t[1..])) == Some((v, w))
    requires |w| > 0 && !IsWs(w[0])
    ensures ParseMembers(s, acc) ==
      if w[0] == ',' then ParseMembers(SkipWs(w[1..]), acc + [(k, v)])
      else if w[0] == '}' then Some((Obj(acc + [(k, v)]), w[1..]))
      else None
  {
    assert SkipWs(t) == t;
    var w' := SkipWs(w);
    assert w' == w;
  }

  /** One written member, and what follows it, `after`. */
  lemma ParseWrittenMember(k: string, v: string, after: string, acc: seq<(string, Json)>)
    requires |after| > 0 && !IsWs(after[0])
    ensures ParseMembers(Member((k, v)) + after, acc) ==
      if after[0] == ',' then ParseMembers(SkipWs(after[1..]), acc + [(k, Str(v))])
      else if after[0] == '}' then Some((Obj(acc + [(k, Str(v))]), after[1..]))
      else None
  {
    WrittenMemberParts(k, v, after);
    ParseMembersStep(Member((k, v)) + after, acc, k, ":" + Quote(v) + after, Str(v), after);
  }

  /** A written member reads as its key, then `:`, then its value. */
  lemma WrittenMemberParts(k: string, v: string, after: string)
    ensures var s, t := Member((k, v)) + after, ":" + Quote(v) + after;
      && |s| > 0 && s[0] == '"' && ParseChars(s[1..]) == Some((k, t))
      && |t| > 0 && t[0] == ':' && ParseValue(SkipWs(t[1..])) == Some((Str(v), after))
  {
    var t := ":" + Quote(v) + after;
    Regroup4(Quote(k), ":", Quote(v), after);
    assert Member((k, v)) + after == Quote(k) + t;
    ParseQuotedChars(k, t);
    WrittenValue(v, after);
  }

  lemma Regroup4(a: string, b: string, c: string, d: string)
    ensures a + b + c + d == a + (b + c + d)
  {
  }

  /** After a key, `:` and the written value. */
  lemma WrittenValue(v: string, after: string)
    ensures var t := ":" + Quote(v) + after;
      |t| > 0 && t[0] == ':' && ParseValue(SkipWs(t[1..])) == Some((Str(v), after))
  {
    var t := ":" + Quote(v) + after;
    assert t[1..] == Quote(v) + after;
    assert Quote(v)[0] == '"';
    assert SkipWs(t[1..]) == t[1..];
    ParseQuoted(v, after);
  }

  /** A written member followed by a comma reads on with the next one. */
  lemma ParseWrittenMemberComma(m: (string, string), next: string, acc: seq<(string, Json)>)
    requires |next| > 0 && next[0] == '"'
    ensures ParseMembers(Member(m) + ("," + next), acc) == ParseMembers(next, acc + [(m.0, Str(m.1))])
  {
    var after := "," + next;
    assert after[0] == ',' && after[1..] == next;
    assert SkipWs(next) == next;
    ParseWrittenMember(m.0, m.1, after, acc);
    assert (m.0, m.1) == m;
  }

  /** A written member followed by `}` closes the object. */
  lemma ParseWrittenMemberClose(m: (string, string), rest: string, acc: seq<(string, Json)>)
    ensures ParseMembers(Member(m) + ("}" + rest), acc) == Some((Obj(acc + [(m.0, Str(m.1))]), rest))
  {
    var after := "}" + rest;
    ParseWrittenMember(m.0, m.1, after, acc);
    assert (m.0, m.1) == m;
    assert after[1..] == rest;
  }

  lemma MembersSplit(ms: seq<(string, string)>, rest: string)
    requires |ms| > 1
    ensures Members(ms) + "}" + rest == Member(ms[0]) + ("," + (Members(ms[1..]) + "}" + rest))
  {
    assert Members(ms) == Member(ms[0]) + "," + Members(ms[1..]);
    Regroup(Member(ms[0]), Members(ms[1..]), rest);
  }

  lemma Regroup(a: string, b: string, rest: string)
    ensures a + "," + b + "}" + rest == a + ("," + (b + "}" + rest))
  {
  }

  lemma StrMembersCons(ms: seq<(string, string)>, acc: seq<(string, Json)>)
    requires |ms| > 0
    ensures (acc + [(ms[0].0, Str(ms[0].1))]) + StrMembers(ms[1..]) == acc + StrMembers(ms)
  {
    assert StrMembers(ms) == [(ms[0].0, Str(ms[0].1))] + StrMembers(ms[1..]);
  }

  /** Reading the written members after `acc` adds exactly them. */
  lemma {:induction false} ParseWrittenMembers(ms: seq<(string, string)>, acc: seq<(string, Json)>, rest: string)
    requires |ms| > 0
    ensures ParseMembers(Members(ms) + "}" + rest, acc) == Some((Obj(acc + StrMembers(ms)), rest))
    decreases |ms|
  {
    var text := Members(ms) + "}" + rest;
    var acc' := acc + [(ms[0].0, Str(ms[0].1))];
    StrMembersCons(ms, acc);
    if |ms| == 1 {
      MembersSplit1(ms, rest);
      var one := Member(ms[0]) + ("}" + rest);
      assert text == one;
      ParseWrittenMemberClose(ms[0], rest, acc);
      assert ParseMembers(one, acc) == Some((Obj(acc'), rest));
      assert acc' == acc + StrMembers(ms);
    } else {
      var next := Members(ms[1..]) + "}" + rest;
      MembersSplit(ms, rest);
      MembersStart(ms[1..]);
      ParseWrittenMemberComma(ms[0], next, acc);
      assert ParseMembers(text, acc) == ParseMembers(next, acc');
      ParseWrittenMembers(ms[1..], acc', rest);
      assert ParseMembers(next, acc') == Some((Obj(acc' + StrMembers(ms[1..])), rest));
    }
  }

  lemma MembersSplit1(ms: seq<(string, string)>, rest: string)
    requires |ms| == 1
    ensures Members(ms) + "}" + rest == Member(ms[0]) + ("}" + rest)
    ensures StrMembers(ms[1..]) == []
  {
    assert Members(ms) == Member(ms[0]);
    Regroup1(Member(ms[0]), rest);
  }

  lemma Regroup1(a: string, rest: string)
    ensures a + "}" + rest == a + ("}" + rest)
  {
  }

  /** How `JSON.parse` reads a value that opens with `{`. */
  lemma ParseValueObject(s: string)
    requires |s| > 0 && s[0] == '{'
    ensures ParseValue(s) == ParseObject(s[1..])
  {
  }

  /** The empty object. */
  lemma ParseEmptyObject()
    ensures ParseObject("}") == Some((Obj([]), ""))
  {
    ParseObjectClose("}");
    assert "}"[1..] == "";
  }

  lemma ParseObjectClose(s: string)
    requires |s| > 0 && s[0] == '}'
    ensures ParseObject(s) == Some((Obj([]), s[1..]))
  {
    assert SkipWs(s) == s;
  }

  /** The members of a non-empty written object, after its `{`. */
  lemma ParseWrittenMembersClosed(ms: seq<(string, string)>)
    requires |ms| > 0
    ensures ParseObject(Members(ms) + "}") == Some((Obj(StrMembers(ms)), ""))
  {
    var body := Members(ms) + "}";
    MembersStart(ms);
    assert SkipWs(body) == body;
    ParseWrittenMembers(ms, [], "");
    assert Members(ms) + "}" + "" == body;
    assert [] + StrMembers(ms) == StrMembers(ms);
  }

  /** The members of a written object, after its `{`. */
  lemma ParseWrittenObject(ms: seq<(string, string)>)
    ensures ParseObject(Members(ms) + "}") == Some((Obj(StrMembers(ms)), ""))
  {
    if |ms| == 0 {
      assert Members(ms) + "}" == "}";
      assert StrMembers(ms) == [];
      ParseEmptyObject();
    } else {
      ParseWrittenMembersClosed(ms);
    }
  }

  /** A whole text that is one object, with nothing after it. */
  lemma ParseWholeObject(text: string, v: Json)
    requires |text| > 0 && text[0] == '{' && ParseObject(text[1..]) == Some((v, ""))
    ensures Parse(text) == Some(v)
  {
    assert SkipWs(text) == text;
    ParseValueObject(text);
    assert SkipWs("") == "";
  }

  /** `JSON.parse(JSON.stringify(o))` gives `o` back: every member, in
      order, with its string value. */
  lemma ParseStringified(ms: seq<(string, string)>)
    ensures Parse(StringifyObject(ms)) == Some(Obj(StrMembers(ms)))
  {
    var text := StringifyObject(ms);
    var body := Members(ms) + "}";
    assert text == "{" + body;
    assert text[1..] == body;
    ParseWrittenObject(ms);
    ParseWholeObject(text, Obj(StrMembers(ms)));
  }

  /** The same for an object of two string members. */
  lemma ParseStringifiedPair(k1: string, v1: string, k2: string, v2: string)
    ensures Parse(StringifyObject([(k1, v1), (k2, v2)])) == Some(Obj([(k1, Str(v1)), (k2, Str(v2))]))
  {
    var ms := [(k1, v1), (k2, v2)];
    ParseStringified(ms);
    assert StrMembers(ms) == [(k1, Str(v1)), (k2, Str(v2))];
  }

  /** A written object begins with `{`. */
  lemma StringifiedStart(ms: seq<(string, string)>)
    ensures |StringifyObject(ms)| >= 2 && StringifyObject(ms)[0] == '{'
  {
  }
}
