/** full_server/reply.cpp: replies, how they are put on the wire, and a reader that takes them off again. */
module Reply {
  import opened Wrappers
  import opened Bytes
  import opened HttpSyntax

  /** The value of a reply; `status` is the number of the enumerator. */
  datatype Reply = Reply(status: int, headers: seq<Header>, content: Bytes)

  predicate Listed(status: int) {
    status in {200, 201, 202, 204, 300, 301, 302, 304, 400, 401, 403, 404, 500, 501, 502, 503}
  }

  const PROTOCOL: Bytes := [72, 84, 84, 80, 47, 49, 46, 48, 32] // "HTTP/1.0 "

  /** `status_strings::to_buffer`; any value that is not listed is reported as an internal error. */
  function StatusLine(status: int): Bytes {
    PROTOCOL + Ascii(StatusText(status)) + CRLF
  }

  /** The status lines without the protocol in front and the line break at the end. */
  function StatusText(status: int): string {
    if status < 300 then SuccessText(status)
    else if status < 400 then RedirectionText(status)
    else if status < 500 then ClientErrorText(status)
    else ServerErrorText(status)
  }

  function SuccessText(status: int): string {
    if status == 200 then "200 OK"
    else if status == 201 then "201 Created"
    else if status == 202 then "202 Accepted"
    else if status == 204 then "204 No Content"
    else INTERNAL_ERROR_TEXT
  }

  function RedirectionText(status: int): string {
    if status == 300 then "300 Multiple Choices"
    else if status == 301 then "301 Moved Permanently"
    else if status == 302 then "302 Moved Temporarily"
    else if status == 304 then "304 Not Modified"
    else INTERNAL_ERROR_TEXT
  }

  function ClientErrorText(status: int): string {
    if status == 400 then "400 Bad Request"
    else if status == 401 then "401 Unauthorized"
    else if status == 403 then "403 Forbidden"
    else if status == 404 then "404 Not Found"
    else INTERNAL_ERROR_TEXT
  }

  function ServerErrorText(status: int): string {
    if status == 501 then "501 Not Implemented"
    else if status == 502 then "502 Bad Gateway"
    else if status == 503 then "503 Service Unavailable"
    else INTERNAL_ERROR_TEXT
  }

  const INTERNAL_ERROR_TEXT := "500 Internal Server Error"

  function Page(title: string, heading: string): string {
    "<html><head><title>" + title + "</title></head><body><h1>" + heading + "</h1></body></html>"
  }

  /** `stock_replies::to_string` */
  function StockBody(status: int): string {
    if status == 200 then ""
    else if status == 201 then Page("Created", "201 Created")
    else if status == 202 then Page("Accepted", "202 Accepted")
    else if status == 204 then Page("No Content", "204 Content")
    else if status == 300 then Page("Multiple Choices", "300 Multiple Choices")
    else if status == 301 then Page("Moved Permanently", "301 Moved Permanently")
    else if status == 302 then Page("Moved Temporarily", "302 Moved Temporarily")
    else if status == 304 then Page("Not Modified", "304 Not Modified")
    else if status == 400 then Page("Bad Request", "400 Bad Request")
    else if status == 401 then Page("Unauthorized", "401 Unauthorized")
    else if status == 403 then Page("Forbidden", "403 Forbidden")
    else if status == 404 then Page("Not Found", "404 Not Found")
    else if status == 500 then Page("Internal Server Error", "500 Internal Server Error")
    else if status == 501 then Page("Not Implemented", "501 Not Implemented")
    else if status == 502 then Page("Bad Gateway", "502 Bad Gateway")
    else if status == 503 then Page("Service Unavailable", "503 Service Unavailable")
    else Page("Internal Server Error", "500 Internal Server Error")
  }

  function PrintHeader(h: Header): Bytes {
    h.name + [COLON, SP] + h.value + CRLF
  }

  function PrintHeaders(headers: seq<Header>): Bytes {
    if headers == [] then [] else PrintHeader(headers[0]) + PrintHeaders(headers[1..])
  }

  /** The bytes of a reply. */
  function PrintReply(rep: Reply): Bytes {
    StatusLine(rep.status) + PrintHeaders(rep.headers) + CRLF + rep.content
  }

  function Flatten(buffers: seq<Bytes>): Bytes {
    if buffers == [] then [] else Flatten(buffers[..|buffers| - 1]) + buffers[|buffers| - 1]
  }

  lemma FlattenSnoc(buffers: seq<Bytes>, b: Bytes)
    ensures Flatten(buffers + [b]) == Flatten(buffers) + b
  {
    assert (buffers + [b])[..|buffers|] == buffers;
  }

  function StockReply(status: int): Reply {
    var body := Ascii(StockBody(status));
    Reply(status, [
      Header(Ascii("Content-Length"), Numeral(10, |body|)),
      Header(Ascii("Content-Type"), Ascii("text/html"))
    ], body)
  }

  lemma {:induction false} PrintHeadersSnoc(headers: seq<Header>, h: Header)
    ensures PrintHeaders(headers + [h]) == PrintHeaders(headers) + PrintHeader(h)
  {
    var all := headers + [h];
    if headers == [] {
      assert all[1..] == [];
      assert PrintHeader(h) + [] == [] + PrintHeader(h);
    } else {
      PrintHeadersSnoc(headers[1..], h);
      assert all[0] == headers[0] && all[1..] == headers[1..] + [h];
      Associative(PrintHeader(headers[0]), PrintHeaders(headers[1..]), PrintHeader(h));
    }
  }

  /** full_server/reply.hpp: the reply object of a connection, filled in place. */
  class ReplyRecord {
    var status: int
    var headers: seq<Header>
    var content: Bytes

    /** The status of a new object is not initialised. */
    constructor (status: int)
      ensures Contents() == Reply(status, [], [])
    {
      this.status, headers, content := status, [], [];
    }

    ghost function Contents(): Reply
      reads this
    {
      Reply(status, headers, content)
    }

    /** `rep = reply::stock_reply(status)` */
    method AssignStock(newStatus: int)
      modifies this
      ensures Contents() == StockReply(newStatus)
    {
      status := newStatus;
      content := Ascii(StockBody(newStatus));
      headers := [
        Header(Ascii("Content-Length"), Numeral(10, |content|)),
        Header(Ascii("Content-Type"), Ascii("text/html"))
      ];
    }

    method ToBuffers() returns (buffers: seq<Bytes>)
      ensures Flatten(buffers) == PrintReply(Contents())
      ensures |buffers| == 4 * |headers| + 3
    {
      buffers := [StatusLine(status)];
      FlattenSnoc([], StatusLine(status));
      var i := 0;
      while i < |headers|
        invariant 0 <= i <= |headers|
        invariant Flatten(buffers) == StatusLine(status) + PrintHeaders(headers[..i])
        invariant |buffers| == 4 * i + 1
      {
        var h := headers[i];
        FlattenHeader(buffers, h);
        PrintHeadersSnoc(headers[..i], h);
        assert headers[..i + 1] == headers[..i] + [h];
        Associative(StatusLine(status), PrintHeaders(headers[..i]), PrintHeader(h));
        buffers := buffers + [h.name];
        buffers := buffers + [[COLON, SP]];
        buffers := buffers + [h.value];
        buffers := buffers + [CRLF];
        i := i + 1;
      }
      assert headers[..i] == headers;
      FlattenSnoc(buffers, CRLF);
      buffers := buffers + [CRLF];
      FlattenSnoc(buffers, content);
      buffers := buffers + [content];
    }
  }

  lemma FlattenHeader(buffers: seq<Bytes>, h: Header)
    ensures Flatten(buffers + [h.name] + [[COLON, SP]] + [h.value] + [CRLF]) == Flatten(buffers) + PrintHeader(h)
  {
    FlattenSnoc(buffers, h.name);
    FlattenSnoc(buffers + [h.name], [COLON, SP]);
    FlattenSnoc(buffers + [h.name] + [[COLON, SP]], h.value);
    FlattenSnoc(buffers + [h.name] + [[COLON, SP]] + [h.value], CRLF);
  }

  // A reader of replies, independent of the printer.

  predicate LineBreakAt(s: Bytes, i: nat) {
    i + 1 < |s| && s[i] == CR && s[i + 1] == LF
  }

  /** "ddd text" CRLF: the code and what follows the line. */
  function ReadStatus(s: Bytes): Option<(int, Bytes)> {
    var end := FirstOf(s, CR);
    if LineBreakAt(s, end) && end >= 13 && s[..9] == PROTOCOL
       && IsDigit(s[9]) && IsDigit(s[10]) && IsDigit(s[11]) && s[12] == SP
    then Some((100 * (s[9] - ZERO) + 10 * (s[10] - ZERO) + (s[11] - ZERO), s[end + 2..]))
    else None
  }

  function AddHeader(h: Header, rest: Option<(seq<Header>, Bytes)>): Option<(seq<Header>, Bytes)> {
    if rest.None? then None else Some(([h] + rest.value.0, rest.value.1))
  }

  /** Header lines up to the first blank line: the headers and what follows the blank line. */
  function ReadHeaders(s: Bytes): Option<(seq<Header>, Bytes)>
    decreases |s|
  {
    var end := FirstOf(s, CR);
    if !LineBreakAt(s, end) then None
    else if end == 0 then Some(([], s[2..]))
    else
      var line := s[..end];
      var colon := FirstOf(line, COLON);
      if colon + 1 < |line| && line[colon + 1] == SP then
        AddHeader(Header(line[..colon], line[colon + 2..]), ReadHeaders(s[end + 2..]))
      else None
  }

  function ReadReply(s: Bytes): Option<Reply> {
    var start := ReadStatus(s);
    if start.None? then None
    else
      var rest := ReadHeaders(start.value.1);
      if rest.None? then None else Some(Reply(start.value.0, rest.value.0, rest.value.1))
  }

  /** A header that can be told apart on the wire. */
  ghost predicate Readable(h: Header) {
    && (forall i | 0 <= i < |h.name| :: h.name[i] != CR && h.name[i] != COLON)
    && (forall i | 0 <= i < |h.value| :: h.value[i] != CR)
  }

  ghost predicate AllReadable(headers: seq<Header>) {
    headers == [] || (Readable(headers[0]) && AllReadable(headers[1..]))
  }

  lemma ReadHeader(h: Header, t: Bytes)
    requires Readable(h)
    ensures ReadHeaders(PrintHeader(h) + t) == AddHeader(h, ReadHeaders(t))
  {
    var line := h.name + [COLON, SP] + h.value;
    Associative(line, CRLF, t);
    FirstInAppend(line, CRLF + t, CR);
    assert (line + (CRLF + t))[|line| + 2..] == t;
    Associative(h.name, [COLON, SP], h.value);
    FirstInAppend(h.name, [COLON, SP] + h.value, COLON);
    assert line[|h.name| + 2..] == h.value;
  }

  lemma ReadHeaderThen(h: Header, s: Bytes, headers: seq<Header>, t: Bytes)
    requires Readable(h) && ReadHeaders(s) == Some((headers, t))
    ensures ReadHeaders(PrintHeader(h) + s) == Some(([h] + headers, t))
  {
    ReadHeader(h, s);
  }

  lemma {:induction false} ReadPrintedHeaders(headers: seq<Header>, t: Bytes)
    requires AllReadable(headers)
    ensures ReadHeaders(PrintHeaders(headers) + (CRLF + t)) == Some((headers, t))
    decreases |headers|
  {
    if headers == [] {
      ReadBlankLine(t);
      assert PrintHeaders(headers) + (CRLF + t) == CRLF + t;
    } else {
      var h, rest := headers[0], headers[1..];
      ReadPrintedHeaders(rest, t);
      ReadHeaderThen(h, PrintHeaders(rest) + (CRLF + t), rest, t);
      assert PrintHeaders(headers) == PrintHeader(h) + PrintHeaders(rest);
      Associative(PrintHeader(h), PrintHeaders(rest), CRLF + t);
      assert [h] + rest == headers;
    }
  }

  lemma ReadBlankLine(t: Bytes)
    ensures ReadHeaders(CRLF + t) == Some(([], t))
  {
    FirstIs(CRLF + t, CR, 0);
    assert (CRLF + t)[2..] == t;
  }

  /** "ddd text", with the digits of `code`, on one line. */
  ghost predicate Shape(l: string, code: int) {
    && |l| >= 4
    && '0' <= l[0] <= '9' && '0' <= l[1] <= '9' && '0' <= l[2] <= '9' && l[3] == ' '
    && '\r' !in l
    && code == 100 * (l[0] as int - 48) + 10 * (l[1] as int - 48) + (l[2] as int - 48)
  }

  lemma InternalErrorShape()
    ensures Shape(INTERNAL_ERROR_TEXT, 500)
  {
  }

  /** Each status line carries its own code; a status that is not listed goes out as 500. */
  lemma {:induction false} StatusTextShape(status: int)
    ensures Shape(StatusText(status), if Listed(status) then status else 500)
  {
    InternalErrorShape();
    if Listed(status) && status != 500 {
      if status < 300 {
        SuccessShape(status);
      } else if status < 400 {
        RedirectionShape(status);
      } else if status < 500 {
        ClientErrorShape(status);
      } else {
        ServerErrorShape(status);
      }
    }
  }

  lemma SuccessShape(status: int)
    requires status in {200, 201, 202, 204}
    ensures Shape(SuccessText(status), status)
  {
  }

  lemma RedirectionShape(status: int)
    requires status in {300, 301, 302, 304}
    ensures Shape(RedirectionText(status), status)
  {
  }

  lemma ClientErrorShape(status: int)
    requires status in {400, 401, 403, 404}
    ensures Shape(ClientErrorText(status), status)
  {
  }

  lemma ServerErrorShape(status: int)
    requires status in {501, 502, 503}
    ensures Shape(ServerErrorText(status), status)
  {
  }

  /** The page has the reason phrase of a status line as its title and the line as its heading. */
  ghost predicate Shows(page: string, l: string) {
    |l| >= 4 && page == Page(l[4..], l)
  }

  lemma ShowsPhrase(page: string, l: string, phrase: string)
    requires |l| == 4 + |phrase| && (forall i | 0 <= i < |phrase| :: l[4 + i] == phrase[i]) && page == Page(phrase, l)
    ensures Shows(page, l)
  {
    assert l[4..] == phrase;
  }

  lemma CreatedPage()
    ensures Shows(StockBody(201), StatusText(201))
  {
    ShowsPhrase(StockBody(201), "201 Created", "Created");
  }

  lemma AcceptedPage()
    ensures Shows(StockBody(202), StatusText(202))
  {
    ShowsPhrase(StockBody(202), "202 Accepted", "Accepted");
  }

  lemma MultipleChoicesPage()
    ensures Shows(StockBody(300), StatusText(300))
  {
    ShowsPhrase(StockBody(300), "300 Multiple Choices", "Multiple Choices");
  }

  lemma MovedPermanentlyPage()
    ensures Shows(StockBody(301), StatusText(301))
  {
    ShowsPhrase(StockBody(301), "301 Moved Permanently", "Moved Permanently");
  }

  lemma MovedTemporarilyPage()
    ensures Shows(StockBody(302), StatusText(302))
  {
    ShowsPhrase(StockBody(302), "302 Moved Temporarily", "Moved Temporarily");
  }

  lemma NotModifiedPage()
    ensures Shows(StockBody(304), StatusText(304))
  {
    ShowsPhrase(StockBody(304), "304 Not Modified", "Not Modified");
  }

  lemma BadRequestPage()
    ensures Shows(StockBody(400), StatusText(400))
  {
    ShowsPhrase(StockBody(400), "400 Bad Request", "Bad Request");
  }

  lemma UnauthorizedPage()
    ensures Shows(StockBody(401), StatusText(401))
  {
    ShowsPhrase(StockBody(401), "401 Unauthorized", "Unauthorized");
  }

  lemma ForbiddenPage()
    ensures Shows(StockBody(403), StatusText(403))
  {
    ShowsPhrase(StockBody(403), "403 Forbidden", "Forbidden");
  }

  lemma NotFoundPage()
    ensures Shows(StockBody(404), StatusText(404))
  {
    ShowsPhrase(StockBody(404), "404 Not Found", "Not Found");
  }

  lemma NotImplementedPage()
    ensures Shows(StockBody(501), StatusText(501))
  {
    ShowsPhrase(StockBody(501), "501 Not Implemented", "Not Implemented");
  }

  lemma BadGatewayPage()
    ensures Shows(StockBody(502), StatusText(502))
  {
    ShowsPhrase(StockBody(502), "502 Bad Gateway", "Bad Gateway");
  }

  lemma ServiceUnavailablePage()
    ensures Shows(StockBody(503), StatusText(503))
  {
    ShowsPhrase(StockBody(503), "503 Service Unavailable", "Service Unavailable");
  }

  lemma InternalErrorPage(status: int)
    requires !Listed(status) || status == 500
    ensures Shows(StockBody(status), INTERNAL_ERROR_TEXT)
  {
    assert INTERNAL_ERROR_TEXT[4..] == "Internal Server Error";
  }

  /** Any stock reply but 200, which has no page, and 204, whose heading is shorter, shows its own status line. */
  lemma {:induction false} StockPages(status: int)
    ensures StockBody(200) == ""
    ensures StockBody(204) == "<html><head><title>" + "No Content" + "</title></head><body><h1>" + "204 Content" + "</h1></body></html>"
    ensures status != 200 && status != 204 ==>
      var l := StatusText(status);
      && |l| >= 4
      && StockBody(status) == "<html><head><title>" + l[4..] + "</title></head><body><h1>" + l + "</h1></body></html>"
  {
    match status
    case 201 => CreatedPage();
    case 202 => AcceptedPage();
    case 300 => MultipleChoicesPage();
    case 301 => MovedPermanentlyPage();
    case 302 => MovedTemporarilyPage();
    case 304 => NotModifiedPage();
    case 400 => BadRequestPage();
    case 401 => UnauthorizedPage();
    case 403 => ForbiddenPage();
    case 404 => NotFoundPage();
    case 501 => NotImplementedPage();
    case 502 => BadGatewayPage();
    case 503 => ServiceUnavailablePage();
    case 200 =>
    case 204 =>
    case _ => InternalErrorPage(status);
  }

  /** A status line is the protocol, a space, code and reason phrase, and a line break. */
  lemma StatusLineText(status: int)
    ensures StatusLine(status) == Ascii("HTTP/1.0 ") + Ascii(StatusText(status)) + [13, 10]
    ensures StatusText(200) == "200 OK" && StatusText(400) == "400 Bad Request" && StatusText(404) == "404 Not Found"
  {
    assert Ascii("HTTP/1.0 ") == PROTOCOL;
  }

  lemma ReadShapedText(text: string, code: int, t: Bytes)
    requires Shape(text, code)
    ensures ReadStatus(PROTOCOL + Ascii(text) + CRLF + t) == Some((code, t))
  {
    var l := PROTOCOL + Ascii(text);
    var s := PROTOCOL + Ascii(text) + CRLF + t;
    assert s == l + (CRLF + t);
    forall k | 0 <= k < |text| ensures Ascii(text)[k] != CR {
      assert text[k] in text;
    }
    FirstIs(s, CR, |l|);
    assert s[..9] == PROTOCOL;
    assert s[|l| + 2..] == t;
  }

  /** The wire form determines the reply: status, headers and content, for every header list that can be told apart. */
  lemma ReplyRoundTrip(rep: Reply)
    requires AllReadable(rep.headers)
    ensures ReadReply(PrintReply(rep)) == Some(rep.(status := if Listed(rep.status) then rep.status else 500))
  {
    var t := PrintHeaders(rep.headers) + (CRLF + rep.content);
    assert PrintReply(rep) == StatusLine(rep.status) + t;
    StatusTextShape(rep.status);
    ReadShapedText(StatusText(rep.status), if Listed(rep.status) then rep.status else 500, t);
    ReadPrintedHeaders(rep.headers, rep.content);
  }

}
