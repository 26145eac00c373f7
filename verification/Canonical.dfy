/** Printing requests, and what parsing a request and printing it again does to it. */
module Canonical {
  import opened Bytes
  import opened HttpSyntax
  import opened RequestParser
  import opened ParserSoundness
  import opened ParserLanguage

  ghost predicate WellFormedHeader(h: Header) {
    h.name != [] && Token(h.name) && Text(h.value)
  }

  ghost predicate AllWellFormed(headers: seq<Header>) {
    forall i | 0 <= i < |headers| :: WellFormedHeader(headers[i])
  }

  ghost predicate WellFormed(req: Request) {
    && req.verb != [] && Token(req.verb)
    && Uri(req.uri)
    && req.major >= 0 && req.minor >= 0
    && AllWellFormed(req.headers)
  }

  function Fields(headers: seq<Header>): (r: seq<Line>)
    ensures |r| == |headers|
  {
    seq(|headers|, i requires 0 <= i < |headers| => Field(headers[i].name, headers[i].value))
  }

  /** One line per header and no superfluous zeros. */
  function CanonicalDocument(req: Request): Document
    requires req.major >= 0 && req.minor >= 0
  {
    Document(req.verb, req.uri, Numeral(10, req.major), Numeral(10, req.minor), Fields(req.headers))
  }

  function PrintRequest(req: Request): Bytes
    requires req.major >= 0 && req.minor >= 0
  {
    Print(CanonicalDocument(req))
  }

  lemma FieldsSnoc(headers: seq<Header>)
    requires headers != []
    ensures Fields(headers)[..|headers| - 1] == Fields(headers[..|headers| - 1])
  {
  }

  lemma {:induction false} DenoteFields(headers: seq<Header>)
    ensures DenoteLines(Fields(headers)) == headers
  {
    if headers != [] {
      FieldsSnoc(headers);
      DenoteFields(headers[..|headers| - 1]);
    }
  }

  lemma CanonicalMeaning(req: Request)
    requires WellFormed(req)
    ensures ValidDocument(CanonicalDocument(req)) && Denote(CanonicalDocument(req)) == req
  {
    ValueOfNumeral(10, req.major);
    ValueOfNumeral(10, req.minor);
    DenoteFields(req.headers);
    forall i | 0 <= i < |req.headers| ensures ValidLine(Fields(req.headers)[i]) {
      assert WellFormedHeader(req.headers[i]);
    }
  }

  /** Printing a well-formed request and parsing the print gives the request back, whatever bytes follow. */
  lemma PrintThenParse(req0: Request, req: Request, t: Bytes)
    requires Fresh(req0) && WellFormed(req)
    ensures Run(MethodStart, req0, PrintRequest(req) + t) == Outcome(True, |PrintRequest(req)|, Newline3, req)
  {
    CanonicalMeaning(req);
    SentenceIsAccepted(req0, CanonicalDocument(req), t);
  }

  lemma MeaningIsWellFormed(d: Document)
    requires ValidDocument(d)
    ensures WellFormed(Denote(d))
  {
    HeadersOfLines(d.lines);
    ValueIsNatural(10, d.major);
    ValueIsNatural(10, d.minor);
  }

  /** The length of one canonical line per header. */
  function HeaderBytes(headers: seq<Header>): nat {
    if headers == [] then 0
    else
      var h := headers[|headers| - 1];
      HeaderBytes(headers[..|headers| - 1]) + |h.name| + |h.value| + 4
  }

  /** What folding costs: each continuation line has a line break and leading blanks that do not reach the value. */
  function FoldBytes(lines: seq<Line>): nat {
    if lines == [] then 0
    else
      var l := lines[|lines| - 1];
      FoldBytes(lines[..|lines| - 1]) + if l.Fold? then |l.ws| + 2 else 0
  }

  lemma HeaderBytesSnoc(headers: seq<Header>, h: Header)
    ensures HeaderBytes(headers + [h]) == HeaderBytes(headers) + |h.name| + |h.value| + 4
  {
    assert (headers + [h])[..|headers|] == headers;
  }

  lemma {:induction false} LinesLength(lines: seq<Line>)
    requires ValidLines(lines)
    ensures |PrintLines(lines)| == HeaderBytes(DenoteLines(lines)) + FoldBytes(lines)
  {
    if lines != [] {
      var init, l := lines[..|lines| - 1], lines[|lines| - 1];
      LinesLength(init);
      HeadersOfLines(init);
      var headers := DenoteLines(init);
      match l
      case Field(n, v) =>
        HeaderBytesSnoc(headers, Header(n, v));
      case Fold(ws, t) =>
        assert init != [];
        var rest, last := headers[..|headers| - 1], headers[|headers| - 1];
        assert headers == rest + [last];
        HeaderBytesSnoc(rest, last);
        HeaderBytesSnoc(rest, last.(value := last.value + t));
    }
  }

  ghost predicate NoFolds(lines: seq<Line>) {
    forall i | 0 <= i < |lines| :: lines[i].Field?
  }

  lemma {:induction false} FoldsCost(lines: seq<Line>)
    ensures FoldBytes(lines) == 0 <==> NoFolds(lines)
  {
    if lines != [] {
      var init := lines[..|lines| - 1];
      FoldsCost(init);
      if NoFolds(init) && lines[|lines| - 1].Field? {
        assert forall i | 0 <= i < |lines| :: i < |init| ==> lines[i] == init[i];
      }
      if NoFolds(lines) {
        assert forall i | 0 <= i < |init| :: lines[i] == init[i];
      }
    }
  }

  lemma NumeralSaves(ds: Bytes)
    requires ds != [] && Digits(ds)
    ensures Value(10, ds) >= 0
    ensures |Numeral(10, Value(10, ds))| <= |ds|
    ensures |Numeral(10, Value(10, ds))| == |ds| <==> Minimal(ds)
  {
    NumeralIsShortest(10, ds);
  }

  lemma {:induction false} ValidFields(headers: seq<Header>)
    requires AllWellFormed(headers)
    ensures ValidLines(Fields(headers)) && FoldBytes(Fields(headers)) == 0
  {
    FoldsCost(Fields(headers));
  }

  /** Exactly what canonical printing saves: folds and leading zeros. */
  lemma CanonicalLength(d: Document)
    requires ValidDocument(d)
    ensures WellFormed(Denote(d))
    ensures var zeros := |d.major| - |Numeral(10, Value(10, d.major))| + |d.minor| - |Numeral(10, Value(10, d.minor))|;
      |Print(d)| == |PrintRequest(Denote(d))| + FoldBytes(d.lines) + zeros
  {
    MeaningIsWellFormed(d);
    var headers := DenoteLines(d.lines);
    LinesLength(d.lines);
    ValidFields(headers);
    LinesLength(Fields(headers));
    DenoteFields(headers);
  }

  lemma AcceptsAfterPrint(req0: Request, s: Bytes, d: Document)
    requires Fresh(req0) && ValidDocument(d) && Print(d) <= s
    ensures Run(MethodStart, req0, s).consumed == |Print(d)|
  {
    SentenceIsAccepted(req0, d, s[|Print(d)|..]);
    assert Print(d) + s[|Print(d)|..] == s;
  }

  /** At most one derivation prints an initial part of a given input. */
  lemma UniqueDerivation(s: Bytes, d: Document, e: Document)
    requires ValidDocument(d) && ValidDocument(e) && Print(d) <= s && Print(e) <= s
    ensures d == e
  {
    var req0 := Request([], [], 0, 0, []);
    AcceptsAfterPrint(req0, s, d);
    AcceptsAfterPrint(req0, s, e);
    Unambiguous(d, e);
  }

  lemma CanonicalIsShortest(d: Document)
    requires ValidDocument(d)
    ensures WellFormed(Denote(d)) && |PrintRequest(Denote(d))| <= |Print(d)|
    ensures |PrintRequest(Denote(d))| == |Print(d)| <==> NoFolds(d.lines) && Minimal(d.major) && Minimal(d.minor)
  {
    CanonicalLength(d);
    NumeralSaves(d.major);
    NumeralSaves(d.minor);
    FoldsCost(d.lines);
  }

  /**
   * Every accepted input has exactly one derivation; the request it yields is well-formed, its canonical print
   * parses back to it and is never longer than the input, and it is as long only if the input had no folded line
   * and no leading zero in a version number.
   */
  lemma {:induction false} Canonicalisation(req0: Request, s: Bytes) returns (d: Document)
    requires Fresh(req0) && Run(MethodStart, req0, s).verdict == True
    ensures ValidDocument(d) && forall e :: ValidDocument(e) && Print(e) <= s ==> e == d
    ensures var r := Run(MethodStart, req0, s);
      && r.req == Denote(d) && WellFormed(r.req)
      && Run(MethodStart, req0, PrintRequest(r.req)) == Outcome(True, |PrintRequest(r.req)|, Newline3, r.req)
      && |PrintRequest(r.req)| <= r.consumed
      && (|PrintRequest(r.req)| == r.consumed <==> NoFolds(d.lines) && Minimal(d.major) && Minimal(d.minor))
  {
    d := AcceptedIsSentence(req0, s);
    forall e | ValidDocument(e) && Print(e) <= s ensures e == d {
      UniqueDerivation(s, d, e);
    }
    CanonicalIsShortest(d);
    PrintThenParse(req0, Denote(d), []);
    assert PrintRequest(Denote(d)) + [] == PrintRequest(Denote(d));
  }

  lemma DenoteSnoc(lines: seq<Line>, l: Line)
    ensures DenoteLines(lines + [l]) == AddLine(DenoteLines(lines), l)
  {
    assert (lines + [l])[..|lines|] == lines;
  }

  lemma AppendToLastValue(headers: seq<Header>, n: Bytes, v: Bytes, t: Bytes)
    ensures AppendValue(headers + [Header(n, v)], t) == headers + [Header(n, v + t)]
  {
  }

  lemma {:induction false} FoldsExtendLast(lines: seq<Line>, headers: seq<Header>, h: Header, folds: seq<Line>)
    requires DenoteLines(lines) == headers + [h]
    requires forall i | 0 <= i < |folds| :: folds[i].Fold?
    ensures DenoteLines(lines + folds) == headers + [Header(h.name, h.value + Pieces(folds))]
    decreases |folds|
  {
    if folds == [] {
      assert lines + folds == lines;
      assert h.value + [] == h.value;
    } else {
      var init, l := folds[..|folds| - 1], folds[|folds| - 1];
      FoldsExtendLast(lines, headers, h, init);
      assert lines + folds == (lines + init) + [l];
      DenoteSnoc(lines + init, l);
      AppendToLastValue(headers, h.name, h.value + Pieces(init), l.text);
      Associative(h.value, Pieces(init), l.text);
    }
  }

  /** A field followed by continuation lines adds one header after any others: the pieces with nothing between them. */
  lemma FoldedValue(before: seq<Line>, n: Bytes, v: Bytes, folds: seq<Line>)
    requires forall i | 0 <= i < |folds| :: folds[i].Fold?
    ensures DenoteLines(before + [Field(n, v)] + folds) == DenoteLines(before) + [Header(n, v + Pieces(folds))]
  {
    DenoteSnoc(before, Field(n, v));
    FoldsExtendLast(before + [Field(n, v)], DenoteLines(before), Header(n, v), folds);
  }

  function Pieces(folds: seq<Line>): Bytes
    requires forall i | 0 <= i < |folds| :: folds[i].Fold?
  {
    if folds == [] then [] else Pieces(folds[..|folds| - 1]) + folds[|folds| - 1].text
  }

  /** The bytes a request holds. */
  function Stored(req: Request): nat {
    |req.verb| + |req.uri| + StoredInHeaders(req.headers)
  }

  function StoredInHeaders(headers: seq<Header>): nat {
    if headers == [] then 0
    else
      var h := headers[|headers| - 1];
      StoredInHeaders(headers[..|headers| - 1]) + |h.name| + |h.value|
  }

  lemma {:induction false} StoredBelowPrinted(headers: seq<Header>)
    ensures StoredInHeaders(headers) <= HeaderBytes(headers)
  {
    if headers != [] {
      StoredBelowPrinted(headers[..|headers| - 1]);
    }
  }

  lemma StoredSnoc(headers: seq<Header>, h: Header)
    ensures StoredInHeaders(headers + [h]) == StoredInHeaders(headers) + |h.name| + |h.value|
  {
    assert (headers + [h])[..|headers|] == headers;
  }

  lemma StoredAfterLine(headers: seq<Header>, l: Line)
    ensures StoredInHeaders(AddLine(headers, l)) <= StoredInHeaders(headers) + |PrintLine(l)|
  {
    match l
    case Field(n, v) =>
      StoredSnoc(headers, Header(n, v));
    case Fold(ws, t) =>
      if headers != [] {
        var rest, last := headers[..|headers| - 1], headers[|headers| - 1];
        assert headers == rest + [last];
        StoredSnoc(rest, last);
        StoredSnoc(rest, last.(value := last.value + t));
      }
  }

  /** The bytes of the method and the URI in a piece. */
  function TargetBytes(p: Piece): nat {
    if p.AtVerb? then |p.verb| else if HasDocument(p) then |p.d.verb| + |p.d.uri| else |p.verb| + |p.uri|
  }

  lemma PieceStoresNoMore(p: Piece)
    requires ValidPiece(p)
    ensures TargetBytes(p) + StoredInHeaders(PieceHeaders(p)) <= |PrintPiece(p)|
  {
    if HasDocument(p) {
      var headers := DenoteLines(p.d.lines);
      LinesLength(p.d.lines);
      StoredBelowPrinted(headers);
      match p
      case AtName(_, n) => StoredSnoc(headers, Header(n, []));
      case AtColon(_, n) => StoredSnoc(headers, Header(n, []));
      case AtValue(_, l) => StoredAfterLine(headers, l);
      case AtLineCR(_, l) => StoredAfterLine(headers, l);
      case _ =>
    }
  }

  predicate HasDocument(p: Piece) {
    p.AtLine? || p.AtName? || p.AtColon? || p.AtValue? || p.AtBlank? || p.AtLineCR? || p.AtEndCR?
  }

  lemma LineKeepsWellFormed(headers: seq<Header>, l: Line)
    requires AllWellFormed(headers) && ValidLine(l) && (l.Fold? ==> headers != [])
    ensures AllWellFormed(AddLine(headers, l)) && AddLine(headers, l) != []
  {
  }

  lemma PieceHeadersWellFormed(p: Piece)
    requires ValidPiece(p)
    ensures AllWellFormed(PieceHeaders(p))
    ensures p.AtName? || p.AtColon? || p.AtValue? || p.AtBlank? || p.AtLineCR? ==> PieceHeaders(p) != []
  {
    if HasDocument(p) {
      HeadersOfLines(p.d.lines);
      var headers := DenoteLines(p.d.lines);
      assert forall i | 0 <= i < |headers| :: WellFormedHeader(headers[i]);
      match p
      case AtName(_, n) => LineKeepsWellFormed(headers, Field(n, []));
      case AtColon(_, n) => LineKeepsWellFormed(headers, Field(n, []));
      case AtValue(_, l) => LineKeepsWellFormed(headers, l);
      case AtLineCR(_, l) => LineKeepsWellFormed(headers, l);
      case _ =>
    }
  }

  /** What holds in every state the parser can be left in. */
  lemma {:induction false} ReachableStates(req0: Request, s: Bytes)
    requires Fresh(req0) && Run(MethodStart, req0, s).verdict == Indeterminate
    ensures var r := Run(MethodStart, req0, s);
      && r.st != UriStart
      && (r.st in {HeaderName, SpaceBeforeValue, HeaderValue, HeaderLws, Newline2} ==> r.req.headers != [])
      && AllWellFormed(r.req.headers)
      && Stored(r.req) <= |s|
  {
    UndecidedIsExplained(req0, s);
    var p := Feed(START, s);
    PieceHeadersWellFormed(p);
    PieceStoresNoMore(p);
    StoredInPiece(p, s, Run(MethodStart, req0, s).st, Run(MethodStart, req0, s).req);
  }

  lemma StoredInPiece(p: Piece, s: Bytes, st: State, req: Request)
    requires Explains(p, s, st, req)
    ensures Stored(req) == TargetBytes(p) + StoredInHeaders(PieceHeaders(p))
  {
  }

  /** The version numbers are the values of the digits read so far. */
  lemma VersionsRead(req0: Request, s: Bytes)
    requires Fresh(req0) && Run(MethodStart, req0, s).verdict == Indeterminate
    ensures var r := Run(MethodStart, req0, s);
      && (r.st in {MajorStart, InMajor} ==>
            exists x :: Digits(x) && s == PrintTarget(r.req.verb, r.req.uri) + (HTTP + x) && r.req.major == Value(10, x))
      && (r.st in {MinorStart, InMinor} ==>
            exists x, y :: Digits(x) && Digits(y) && s == PrintTarget(r.req.verb, r.req.uri) + PrintVersion(x, y)
              && r.req.major == Value(10, x) && r.req.minor == Value(10, y))
  {
    UndecidedIsExplained(req0, s);
  }

  /** A request byte by byte: GET /a HTTP/1.0, a field User-Agent: x, and a line that folds y into its value after a tab. */
  const GET_A: Bytes := [71, 69, 84, 32, 47, 97, 32, 72, 84, 84, 80, 47, 49, 46, 48, 13, 10]
  const USER_AGENT: Bytes := [85, 115, 101, 114, 45, 65, 103, 101, 110, 116, 58, 32, 120, 13, 10]
  const FOLDED_Y: Bytes := [9, 121, 13, 10]

  const AGENT: Line := Field(Ascii("User-Agent"), [120])
  const CONTINUED: Line := Fold([9], [121])
  const GET_START: Document := Document([71, 69, 84], [47, 97], [49], [48], [])

  lemma GetPrints()
    ensures Print(GET_START.(lines := [AGENT, CONTINUED])) == GET_A + USER_AGENT + FOLDED_Y + [13, 10]
  {
    assert PrintHead(GET_START) == GET_A;
    assert PrintLine(AGENT) + CRLF == USER_AGENT;
    assert PrintLine(CONTINUED) + CRLF == FOLDED_Y;
    PrintLineSnoc(GET_START, AGENT);
    PrintLineSnoc(GET_START.(lines := [AGENT]), CONTINUED);
    assert [] + [AGENT] == [AGENT] && [AGENT] + [CONTINUED] == [AGENT, CONTINUED];
  }

  lemma GetMeans()
    ensures Denote(GET_START.(lines := [AGENT, CONTINUED])) ==
      Request([71, 69, 84], [47, 97], 1, 0, [Header(Ascii("User-Agent"), [120, 121])])
  {
    OneDigit(49);
    OneDigit(48);
    FoldedValue([], Ascii("User-Agent"), [120], [CONTINUED]);
    assert [] + [AGENT] + [CONTINUED] == [AGENT, CONTINUED];
    assert [CONTINUED][..0] == [] && Pieces([CONTINUED]) == [121];
    assert [120] + [121] == [120, 121];
    assert Value(10, [49]) == 1 && Value(10, [48]) == 0;
  }

  lemma GetIsValid()
    ensures ValidDocument(GET_START.(lines := [AGENT, CONTINUED]))
  {
    var name := [85, 115, 101, 114, 45, 65, 103, 101, 110, 116];
    assert Ascii("User-Agent") == name;
    forall i | 0 <= i < |name| ensures IsTokenChar(name[i]) {
      Alphabets(name[i]);
    }
  }

  lemma GetIsAccepted(req0: Request)
    requires Fresh(req0)
    ensures var s := GET_A + USER_AGENT + FOLDED_Y + [13, 10];
      Run(MethodStart, req0, s) ==
        Outcome(True, |s|, Newline3, Request([71, 69, 84], [47, 97], 1, 0, [Header(Ascii("User-Agent"), [120, 121])]))
  {
    GetPrints();
    GetMeans();
    GetIsValid();
    var d := GET_START.(lines := [AGENT, CONTINUED]);
    SentenceIsAccepted(req0, d, []);
    assert Print(d) + [] == Print(d);
  }

  lemma OneDigit(c: Byte)
    ensures Value(10, [c]) == DigitValue(c)
  {
    assert [c][..0] == [];
  }
}
