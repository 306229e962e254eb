/** The event creator page of `app/event-creator/page.tsx`: the two form
    fields, and the string Generate writes from them,
    `btoa(unescape(encodeURIComponent(JSON.stringify({body, link}))))`. */
module EventCreator {
  import opened Wrappers
  import Json
  import Utf8
  import Base64
  import UriCoding
  import Calendar

  /** `JSON.stringify({body: description, link: ticketLink})`: both keys,
      `body` first, whatever the inputs. */
  function PayloadJson(description: string, ticketLink: string): string {
    Json.StringifyObject(Calendar.PayloadMembers(description, ticketLink))
  }

  /** `unescape(encodeURIComponent(jsonString))` is the binary string of the
      UTF-8 octets, so `btoa` accepts it: the generated string is the
      base64 text of the UTF-8 encoding of the JSON. */
  function Generate(description: string, ticketLink: string): (r: Option<string>)
    ensures r == Some(Base64.Encode(Utf8.Encode(PayloadJson(description, ticketLink))))
  {
    var jsonString := PayloadJson(description, ticketLink);
    UriCoding.UnescapeEncoded(jsonString);
    Base64.BtoaByteString(Utf8.Encode(jsonString));
    Base64.Btoa(UriCoding.Unescape(UriCoding.EncodeURIComponent(jsonString)))
  }

  /** For `n` octets of UTF-8 the generated string has `4 * ceil(n / 3)`
      characters, all from the base64 alphabet except at most two closing
      `=`; it is never empty. */
  lemma GeneratedShape(description: string, ticketLink: string)
    ensures var n := |Utf8.Encode(PayloadJson(description, ticketLink))|;
      var g := Generate(description, ticketLink).value;
      && |g| == 4 * ((n + 2) / 3)
      && Base64.WellPadded(g, Base64.PadCount(n)) && Base64.PadCount(n) <= 2
      && |g| >= 4
  {
    Json.StringifiedStart(Calendar.PayloadMembers(description, ticketLink));
    EncodedShape(PayloadJson(description, ticketLink));
  }

  /** The base64 text of the UTF-8 of a non-empty text, as its length and
      padding. */
  lemma EncodedShape(text: string)
    requires |text| > 0
    ensures var n := |Utf8.Encode(text)|;
      var g := Base64.Encode(Utf8.Encode(text));
      && |g| == 4 * ((n + 2) / 3)
      && Base64.WellPadded(g, Base64.PadCount(n)) && Base64.PadCount(n) <= 2
      && |g| >= 4
  {
    var bs := Utf8.Encode(text);
    assert |bs| > 0;
    Base64.EncodeLength(bs);
    Base64.EncodeCharacters(bs);
  }

  /** Undoing the base64 and then the UTF-8 gives back the JSON text. */
  lemma GeneratedDecodes(description: string, ticketLink: string)
    ensures var bytes := Base64.Decode(Generate(description, ticketLink).value);
      && bytes == Some(Utf8.Encode(PayloadJson(description, ticketLink)))
      && Utf8.Decode(bytes.value) == Some(PayloadJson(description, ticketLink))
  {
    var json := PayloadJson(description, ticketLink);
    Base64.DecodeEncode(Utf8.Encode(json));
    Utf8.DecodeEncode(json);
  }

  /** The first base64 character takes the high six bits of the first
      octet. */
  lemma Base64First(bs: seq<Utf8.Byte>)
    requires |bs| > 0
    ensures |Base64.Encode(bs)| > 0 && Base64.Encode(bs)[0] == Base64.AlphabetChar(bs[0] / 4)
  {
  }

  /** The UTF-8 of a text that starts with an ASCII character starts with
      that character's code. */
  lemma Utf8First(s: string)
    requires |s| > 0 && s[0] as int < 0x80
    ensures |Utf8.Encode(s)| > 0 && Utf8.Encode(s)[0] == s[0] as int
  {
  }

  /** A generated string starts with `e`, the base64 digit of the high bits
      of `{`, which begins no JSON text: the description decoder, which
      parses JSON without base64-decoding, never recognises it, and the
      export keeps it as it is. */
  lemma GeneratedStringNeverRecognised(description: string, ticketLink: string)
    ensures var g := Generate(description, ticketLink).value;
      && g[0] == 'e'
      && Calendar.ParseEventDescription(Some(g)).None?
      && Calendar.ExportDescription(Some(g)) == Calendar.Text(g)
  {
    Json.StringifiedStart(Calendar.PayloadMembers(description, ticketLink));
    BraceTextUnrecognised(PayloadJson(description, ticketLink));
  }

  /** The same for the base64 of the UTF-8 of any text that starts with
      `{`. */
  lemma BraceTextUnrecognised(text: string)
    requires |text| > 0 && text[0] == '{'
    ensures var g := Base64.Encode(Utf8.Encode(text));
      && |g| > 0 && g[0] == 'e'
      && Calendar.ParseEventDescription(Some(g)).None?
      && Calendar.ExportDescription(Some(g)) == Calendar.Text(g)
  {
    var g := Base64.Encode(Utf8.Encode(text));
    BraceStartsWithE(text);
    Json.ParseRejectsStart(g);
    Calendar.UnparsedDescription(g);
  }

  /** The base64 of the UTF-8 of a text that starts with `{` starts with
      `e`. */
  lemma BraceStartsWithE(text: string)
    requires |text| > 0 && text[0] == '{'
    ensures var g := Base64.Encode(Utf8.Encode(text)); |g| > 0 && g[0] == 'e'
  {
    Utf8First(text);
    Base64First(Utf8.Encode(text));
  }

  /** The page's state. */
  class EventCreatorPage {
    var description: string
    var ticketLink: string
    var generatedString: string

    constructor ()
      ensures description == "" && ticketLink == "" && generatedString == ""
    {
      description := "";
      ticketLink := "";
      generatedString := "";
    }

    /** The results block is rendered when a string has been generated. */
    function ResultsShown(): bool
      reads this
    {
      generatedString != ""
    }

    /** Typing in the description field. */
    method SetDescription(value: string)
      modifies this
      ensures description == value
      ensures ticketLink == old(ticketLink) && generatedString == old(generatedString)
    {
      description := value;
    }

    /** Typing in the ticket link field. */
    method SetTicketLink(value: string)
      modifies this
      ensures ticketLink == value
      ensures description == old(description) && generatedString == old(generatedString)
    {
      ticketLink := value;
    }

    /** `handleGenerate`, without the scroll it schedules. */
    method HandleGenerate()
      modifies this
      ensures Some(generatedString) == Generate(description, ticketLink)
      ensures ResultsShown()
      ensures description == old(description) && ticketLink == old(ticketLink)
    {
      var jsonString := PayloadJson(description, ticketLink);
      var binary := UriCoding.Unescape(UriCoding.EncodeURIComponent(jsonString));
      var base64 := Base64.Btoa(binary);
      assert base64 == Generate(description, ticketLink);
      GeneratedShape(description, ticketLink);
      generatedString := base64.value;
    }
  }
}
