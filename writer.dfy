/** Response serialisation: the header block send_response formats, the
    octet-stream header of the file branch, and the two sends. A reading
    of the result as a client parses it is the partner that shows the
    serialisation loses nothing. */
module Writer {
  import opened CLib
  import opened Numerals
  import opened ServerH

  const VERSION := "HTTP/1.1 "
  const CONTENT_TYPE := "\r\nContent-Type: "
  const CONTENT_LENGTH := "\r\nContent-Length: "
  const END_OF_HEADERS := "\r\n\r\n"
  const TEXT_PLAIN := "text/plain"
  const OCTET_STREAM := "application/octet-stream"

  predicate IsCr(c: char) { c == '\r' }

  predicate NoCr(s: string) { forall k :: 0 <= k < |s| ==> !IsCr(s[k]) }

  /** send_response picks "OK" for 200 and "Not Found" for any other code,
      500 included. */
  function Reason(code: HttpCode): (r: string)
    ensures NoCr(r) && NUL !in r
  {
    if code == Ok then "OK" else "Not Found"
  }

  /** "HTTP/1.1 <status> <reason>\r\nContent-Type: <type>\r\nContent-Length: <n>\r\n\r\n" */
  function Header(status: nat, reason: string, contentType: string, length: nat): (h: string)
    ensures |h| == 48 + |Decimal(status)| + |reason| + |contentType| + |Decimal(length)|
    ensures NUL !in reason && NUL !in contentType ==> NUL !in h
  {
    VERSION + (Decimal(status) + (" " + (reason + (CONTENT_TYPE + (contentType
      + (CONTENT_LENGTH + (Decimal(length) + END_OF_HEADERS)))))))
  }

  /** The header send_response formats with snprintf into BUFFER_SIZE bytes. */
  function TextHeader(code: HttpCode, length: nat): (h: string)
    ensures |h| < BUFFER_SIZE && NUL !in h
    ensures h <= Header(CodeValue(code), Reason(code), TEXT_PLAIN, length)
  {
    Truncate(Header(CodeValue(code), Reason(code), TEXT_PLAIN, length), BUFFER_SIZE - 1)
  }

  /** The header the file branch formats with snprintf into BUFFER_SIZE bytes. */
  function OctetHeader(size: nat): (h: string)
    ensures |h| < BUFFER_SIZE && NUL !in h
    ensures h <= Header(200, "OK", OCTET_STREAM, size)
  {
    Truncate(Header(200, "OK", OCTET_STREAM, size), BUFFER_SIZE - 1)
  }

  /** send_response: the header, then the message up to its terminator;
      Content-Length is the message's strlen. */
  function SendResponse(code: HttpCode, message: string): (s: seq<string>)
    ensures |s| == 2 && NUL !in s[0] && NUL !in s[1]
    ensures s[1] <= message && (|s[1]| < |message| ==> message[|s[1]|] == NUL)
    ensures s[0] <= Header(CodeValue(code), Reason(code), TEXT_PLAIN, |s[1]|)
    ensures |s[1]| < BUFFER_SIZE ==> s[0] == Header(CodeValue(code), Reason(code), TEXT_PLAIN, |s[1]|)
  {
    var body := CStr(message);
    if |body| < BUFFER_SIZE then
      TextHeaderFits(code, |body|);
      [TextHeader(code, |body|), body]
    else
      [TextHeader(code, |body|), body]
  }

  /** The file branch as evidently intended: the octet-stream header, then
      the file's content. */
  function FileSends(data: seq<char>): seq<string>
  {
    [OctetHeader(|data|), data]
  }

  /** What the client receives: the sends one after another. */
  function Wire(sends: seq<string>): string
  {
    if sends == [] then [] else sends[0] + Wire(sends[1..])
  }

  datatype Message = Message(status: nat, reason: string, contentType: string, body: string)

  /** The text after `literal`, when `s` starts with it. */
  function Expect(literal: string, s: string): (r: Option<string>)
    ensures r.Some? <==> literal <= s
    ensures r.Some? ==> s == literal + r.value
  {
    if literal <= s then Some(s[|literal|..]) else None
  }

  /** A client's reading of one response: status line, the two headers in
      the server's order, and a body of Content-Length characters. */
  function ParseResponse(w: string): Option<Message>
  {
    match Expect(VERSION, w)
    case None => None
    case Some(a) => ParseStatusLine(a)
  }

  /** "<digits> <reason>" followed by the header lines. */
  function ParseStatusLine(a: string): Option<Message>
  {
    var status := PrefixBefore(a, NotDigit);
    if status == [] then None else
    match Expect(" ", a[|status|..])
    case None => None
    case Some(b) =>
      var reason := PrefixBefore(b, IsCr);
      match ParseContentType(b[|reason|..])
      case None => None
      case Some((contentType, body)) => Some(Message(ParseDecimal(status), reason, contentType, body))
  }

  /** "\r\nContent-Type: <type>" followed by the length line. */
  function ParseContentType(c: string): Option<(string, string)>
  {
    match Expect(CONTENT_TYPE, c)
    case None => None
    case Some(rest) =>
      var contentType := PrefixBefore(rest, IsCr);
      match ParseContentLength(rest[|contentType|..])
      case None => None
      case Some(body) => Some((contentType, body))
  }

  /** "\r\nContent-Length: <n>\r\n\r\n" and then n characters of body. */
  function ParseContentLength(d: string): Option<string>
  {
    match Expect(CONTENT_LENGTH, d)
    case None => None
    case Some(rest) =>
      var length := PrefixBefore(rest, NotDigit);
      if length == [] then None else
      match Expect(END_OF_HEADERS, rest[|length|..])
      case None => None
      case Some(body) =>
        var n := ParseDecimal(length);
        if |body| < n then None else Some(body[..n])
  }

  lemma ExpectConcat(literal: string, rest: string)
    ensures Expect(literal, literal + rest) == Some(rest)
  {
    assert (literal + rest)[|literal|..] == rest;
  }

  /** The length line is read back from any digit string that denotes the
      body's length. */
  lemma ContentLengthRoundTrip(digits: string, body: string)
    requires digits != [] && AllDigits(digits) && ParseDecimal(digits) == |body|
    ensures ParseContentLength(CONTENT_LENGTH + (digits + (END_OF_HEADERS + body))) == Some(body)
  {
    var e := END_OF_HEADERS + body;
    ExpectConcat(CONTENT_LENGTH, digits + e);
    PrefixBeforeConcat(digits, e, NotDigit);
    assert (digits + e)[|digits|..] == e;
    ExpectConcat(END_OF_HEADERS, body);
    assert body[..|body|] == body;
  }

  lemma ContentTypeRoundTrip(contentType: string, digits: string, body: string)
    requires NoCr(contentType)
    requires digits != [] && AllDigits(digits) && ParseDecimal(digits) == |body|
    ensures ParseContentType(CONTENT_TYPE + (contentType
              + (CONTENT_LENGTH + (digits + (END_OF_HEADERS + body)))))
         == Some((contentType, body))
  {
    var d := CONTENT_LENGTH + (digits + (END_OF_HEADERS + body));
    ExpectConcat(CONTENT_TYPE, contentType + d);
    PrefixBeforeConcat(contentType, d, IsCr);
    assert (contentType + d)[|contentType|..] == d;
    ContentLengthRoundTrip(digits, body);
  }

  /** Reading a header followed by its body gives back the status, the
      reason, the content type and exactly the body. */
  lemma HeaderRoundTrip(status: nat, reason: string, contentType: string, body: string)
    requires NoCr(reason) && NoCr(contentType)
    ensures ParseResponse(Header(status, reason, contentType, |body|) + body)
         == Some(Message(status, reason, contentType, body))
  {
    var s := Decimal(status);
    var c := CONTENT_TYPE + (contentType
              + (CONTENT_LENGTH + (Decimal(|body|) + (END_OF_HEADERS + body))));
    var b := " " + (reason + c);
    assert Header(status, reason, contentType, |body|) + body == VERSION + (s + b);
    ExpectConcat(VERSION, s + b);
    PrefixBeforeConcat(s, b, NotDigit);
    assert (s + b)[|s|..] == b;
    ExpectConcat(" ", reason + c);
    PrefixBeforeConcat(reason, c, IsCr);
    assert (reason + c)[|reason|..] == c;
    DecimalRoundTrip(|body|);
    ContentTypeRoundTrip(contentType, Decimal(|body|), body);
    DecimalRoundTrip(status);
  }

  /** For every message that fits the message buffer, the text header is
      not truncated. */
  lemma TextHeaderFits(code: HttpCode, length: nat)
    requires length < BUFFER_SIZE
    ensures TextHeader(code, length) == Header(CodeValue(code), Reason(code), TEXT_PLAIN, length)
  {
    DecimalWidth(CodeValue(code), 3);
    DecimalWidth(length, 4);
  }

  /** For any size a 64-bit size_t can hold, the octet-stream header is not
      truncated. */
  lemma OctetHeaderFits(size: nat)
    requires size < 0x1_0000_0000_0000_0000
    ensures OctetHeader(size) == Header(200, "OK", OCTET_STREAM, size)
  {
    assert Pow10(5) == 100_000;
    assert Pow10(10) == 100_000 * Pow10(5);
    DecimalWidth(200, 3);
    DecimalWidth(size, 20);
  }

  /** A text response reaches the client intact: the client reads the
      code, send_response's reason phrase, text/plain and exactly the
      message. */
  lemma TextOnWire(code: HttpCode, message: string)
    requires NUL !in message && |message| < BUFFER_SIZE
    ensures ParseResponse(Wire(SendResponse(code, message)))
         == Some(Message(CodeValue(code), Reason(code), TEXT_PLAIN, message))
  {
    PrefixBeforeConcat(message, [], IsNul);
    assert message + [] == message;
    TextHeaderFits(code, |message|);
    var h := TextHeader(code, |message|);
    assert Wire(SendResponse(code, message)) == h + message by {
      assert Wire([message]) == message + Wire([]);
    }
    HeaderRoundTrip(CodeValue(code), Reason(code), TEXT_PLAIN, message);
  }

  /** The intended file response carries status 200, octet-stream and, as its body,
      exactly the data handed to it. */
  lemma FileOnWire(data: seq<char>)
    requires |data| < 0x1_0000_0000_0000_0000
    ensures ParseResponse(Wire(FileSends(data)))
         == Some(Message(200, "OK", OCTET_STREAM, data))
  {
    OctetHeaderFits(|data|);
    var h := OctetHeader(|data|);
    assert Wire(FileSends(data)) == h + data by {
      assert Wire([data]) == data + Wire([]);
    }
    HeaderRoundTrip(200, "OK", OCTET_STREAM, data);
  }
}
