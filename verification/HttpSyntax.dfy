/**
 * The request language of HTTP/1.0 (RFC 1945, sections 2.2, 4.2 and 5.1) as the server reads it, written as
 * a grammar: derivations (`Document`), the bytes each one stands for (`Print`) and the request it means (`Denote`).
 * Nothing here mentions the parser.
 */
module HttpSyntax {
  import opened Bytes

  /** full_server/header.hpp: a header field. */
  datatype Header = Header(name: Bytes, value: Bytes)

  /** full_server/request.hpp: the value of a request. */
  datatype Request = Request(verb: Bytes, uri: Bytes, major: int, minor: int, headers: seq<Header>)

  predicate IsChar(c: int) {
    0 <= c <= 127
  }

  predicate IsCtl(c: int) {
    0 <= c <= 31 || c == 127
  }

  /** ( ) < > @ , ; : \ " / [ ] ? = { } SP HT */
  predicate IsTspecial(c: int) {
    c in {40, 41, 60, 62, 64, 44, 59, 58, 92, 34, 47, 91, 93, 63, 61, 123, 125, 32, 9}
  }

  predicate IsTokenChar(c: Byte) {
    IsChar(c) && !IsCtl(c) && !IsTspecial(c)
  }

  predicate IsTextChar(c: Byte) {
    !IsCtl(c)
  }

  predicate IsUriChar(c: Byte) {
    !IsCtl(c) && c != SP
  }

  predicate IsBlank(c: Byte) {
    c == SP || c == HT
  }

  /** The alphabets in full: letters, digits and fifteen marks; visible and non-ASCII bytes; these and the space. */
  lemma Alphabets(c: Byte)
    ensures IsTokenChar(c) <==>
      || 48 <= c <= 57 || 65 <= c <= 90 || 97 <= c <= 122
      || c in {33, 35, 36, 37, 38, 39, 42, 43, 45, 46, 94, 95, 96, 124, 126}
    ensures IsUriChar(c) <==> 33 <= c <= 126 || 128 <= c
    ensures IsTextChar(c) <==> 32 <= c <= 126 || 128 <= c
    ensures IsBlank(c) <==> c == 32 || c == 9
    ensures IsDigit(c) <==> 48 <= c <= 57
  {
  }

  ghost predicate Token(s: Bytes) {
    forall i | 0 <= i < |s| :: IsTokenChar(s[i])
  }

  ghost predicate Text(s: Bytes) {
    forall i | 0 <= i < |s| :: IsTextChar(s[i])
  }

  ghost predicate Uri(s: Bytes) {
    forall i | 0 <= i < |s| :: IsUriChar(s[i])
  }

  ghost predicate Blank(s: Bytes) {
    forall i | 0 <= i < |s| :: IsBlank(s[i])
  }

  ghost predicate Digits(s: Bytes) {
    DigitsOf(10, s)
  }

  /** One physical header line: a field, or a folded continuation of the field before it. */
  datatype Line = Field(name: Bytes, value: Bytes) | Fold(ws: Bytes, text: Bytes)

  ghost predicate ValidLine(l: Line) {
    match l
    case Field(name, value) => name != [] && Token(name) && Text(value)
    case Fold(ws, text) => ws != [] && Blank(ws) && Text(text) && (text != [] ==> text[0] != SP)
  }

  ghost predicate ValidLines(lines: seq<Line>) {
    && (lines != [] ==> lines[0].Field?)
    && forall i | 0 <= i < |lines| :: ValidLine(lines[i])
  }

  /** A derivation of the grammar. */
  datatype Document = Document(verb: Bytes, uri: Bytes, major: Bytes, minor: Bytes, lines: seq<Line>)

  ghost predicate ValidStart(d: Document) {
    && d.verb != [] && Token(d.verb)
    && Uri(d.uri)
    && d.major != [] && Digits(d.major)
    && d.minor != [] && Digits(d.minor)
  }

  ghost predicate ValidDocument(d: Document) {
    ValidStart(d) && ValidLines(d.lines)
  }

  const CRLF: Bytes := [CR, LF]
  const HTTP: Bytes := [72, 84, 84, 80, 47] // "HTTP/"

  function PrintTarget(verb: Bytes, uri: Bytes): Bytes {
    verb + [SP] + uri + [SP]
  }

  function PrintVersion(major: Bytes, minor: Bytes): Bytes {
    HTTP + major + [DOT] + minor
  }

  function PrintStart(d: Document): Bytes {
    PrintTarget(d.verb, d.uri) + PrintVersion(d.major, d.minor) + CRLF
  }

  function PrintLine(l: Line): Bytes {
    match l
    case Field(name, value) => name + [COLON, SP] + value
    case Fold(ws, text) => ws + text
  }

  function PrintLines(lines: seq<Line>): Bytes {
    if lines == [] then [] else PrintLines(lines[..|lines| - 1]) + PrintLine(lines[|lines| - 1]) + CRLF
  }

  /** Everything before the blank line. */
  function PrintHead(d: Document): Bytes {
    PrintStart(d) + PrintLines(d.lines)
  }

  function Print(d: Document): Bytes {
    PrintHead(d) + CRLF
  }

  /** Append to the value of the last header. */
  function AppendValue(headers: seq<Header>, text: Bytes): (r: seq<Header>)
    requires headers != []
    ensures |r| == |headers|
  {
    var last := headers[|headers| - 1];
    headers[..|headers| - 1] + [last.(value := last.value + text)]
  }

  function AddLine(headers: seq<Header>, l: Line): seq<Header> {
    match l
    case Field(name, value) => headers + [Header(name, value)]
    case Fold(_, text) => if headers == [] then [] else AppendValue(headers, text)
  }

  /** A folded line continues the value before it; the line break and the blanks after it vanish. */
  function DenoteLines(lines: seq<Line>): seq<Header> {
    if lines == [] then [] else AddLine(DenoteLines(lines[..|lines| - 1]), lines[|lines| - 1])
  }

  function Denote(d: Document): Request {
    Request(d.verb, d.uri, Value(10, d.major), Value(10, d.minor), DenoteLines(d.lines))
  }

  /** `s` is a request of the language. */
  ghost predicate Sentence(s: Bytes) {
    exists d :: ValidDocument(d) && Print(d) == s
  }

  /** `s` can be continued, by at least one byte, to a request of the language. */
  ghost predicate ProperPrefix(s: Bytes) {
    exists t :: t != [] && Sentence(s + t)
  }

  /** `s` can be continued, or is itself, a request of the language. */
  ghost predicate Viable(s: Bytes) {
    exists t :: Sentence(s + t)
  }

  /** The headers of valid lines have names that are tokens and values that are text, and there is one if there is a line. */
  lemma {:induction false} HeadersOfLines(lines: seq<Line>)
    requires ValidLines(lines)
    ensures lines != [] ==> DenoteLines(lines) != []
    ensures forall i | 0 <= i < |DenoteLines(lines)| ::
      DenoteLines(lines)[i].name != [] && Token(DenoteLines(lines)[i].name) && Text(DenoteLines(lines)[i].value)
  {
    if lines != [] {
      var init, l := lines[..|lines| - 1], lines[|lines| - 1];
      HeadersOfLines(init);
      assert ValidLine(l);
      var before := DenoteLines(init);
      match l
      case Field(n, v) =>
        assert DenoteLines(lines) == before + [Header(n, v)];
      case Fold(_, t) =>
        assert init != [];
        var last := before[|before| - 1];
        assert DenoteLines(lines) == before[..|before| - 1] + [last.(value := last.value + t)];
        assert Text(last.value + t);
    }
  }
}
