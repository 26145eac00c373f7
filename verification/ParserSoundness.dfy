/**
 * What the parser has read is always an initial piece of a derivation of the grammar, and when it accepts, the
 * piece is the whole derivation and the request is what that derivation means.
 */
module ParserSoundness {
  import opened Bytes
  import opened HttpSyntax
  import opened RequestParser

  /** An initial piece of a derivation: one constructor for each place where reading can stop. */
  datatype Piece =
    | AtVerb(verb: Bytes)
    | AtUri(verb: Bytes, uri: Bytes)
    | AtProtocol(verb: Bytes, uri: Bytes, k: nat) // k bytes of "HTTP/"
    | AtMajor(verb: Bytes, uri: Bytes, major: Bytes)
    | AtMinor(verb: Bytes, uri: Bytes, major: Bytes, minor: Bytes)
    | AtStartCR(verb: Bytes, uri: Bytes, major: Bytes, minor: Bytes)
    | AtLine(d: Document)
    | AtName(d: Document, name: Bytes)
    | AtColon(d: Document, name: Bytes)
    | AtValue(d: Document, line: Line)
    | AtBlank(d: Document, ws: Bytes)
    | AtLineCR(d: Document, line: Line)
    | AtEndCR(d: Document)

  ghost predicate ValidPiece(p: Piece) {
    match p
    case AtVerb(m) => Token(m)
    case AtUri(m, u) => m != [] && Token(m) && Uri(u)
    case AtProtocol(m, u, k) => m != [] && Token(m) && Uri(u) && k < 5
    case AtMajor(m, u, x) => m != [] && Token(m) && Uri(u) && Digits(x)
    case AtMinor(m, u, x, y) => m != [] && Token(m) && Uri(u) && x != [] && Digits(x) && Digits(y)
    case AtStartCR(m, u, x, y) => ValidStart(Document(m, u, x, y, []))
    case AtLine(d) => ValidDocument(d)
    case AtName(d, n) => ValidDocument(d) && n != [] && Token(n)
    case AtColon(d, n) => ValidDocument(d) && n != [] && Token(n)
    case AtValue(d, l) => ValidDocument(d) && ValidNext(d, l) && (l.Fold? ==> l.text != [])
    case AtBlank(d, ws) => ValidDocument(d) && ValidNext(d, Fold(ws, []))
    case AtLineCR(d, l) => ValidDocument(d) && ValidNext(d, l)
    case AtEndCR(d) => ValidDocument(d)
  }

  /** `l` may follow the lines of `d`. */
  ghost predicate ValidNext(d: Document, l: Line) {
    ValidLine(l) && (l.Fold? ==> d.lines != [])
  }

  function StateOf(p: Piece): State {
    match p
    case AtVerb(m) => if m == [] then MethodStart else InMethod
    case AtUri(_, _) => InUri
    case AtProtocol(_, _, k) =>
      if k == 0 then VersionH else if k == 1 then VersionT1 else if k == 2 then VersionT2
      else if k == 3 then VersionP else VersionSlash
    case AtMajor(_, _, x) => if x == [] then MajorStart else InMajor
    case AtMinor(_, _, _, y) => if y == [] then MinorStart else InMinor
    case AtStartCR(_, _, _, _) => Newline1
    case AtLine(_) => LineStart
    case AtName(_, _) => HeaderName
    case AtColon(_, _) => SpaceBeforeValue
    case AtValue(_, _) => HeaderValue
    case AtBlank(_, _) => HeaderLws
    case AtLineCR(_, _) => Newline2
    case AtEndCR(_) => Newline3
  }

  /** The bytes a piece stands for. */
  function PrintPiece(p: Piece): Bytes {
    match p
    case AtVerb(m) => m
    case AtUri(m, u) => m + [SP] + u
    case AtProtocol(m, u, k) => PrintTarget(m, u) + if k <= 5 then HTTP[..k] else []
    case AtMajor(m, u, x) => PrintTarget(m, u) + (HTTP + x)
    case AtMinor(m, u, x, y) => PrintTarget(m, u) + PrintVersion(x, y)
    case AtStartCR(m, u, x, y) => PrintTarget(m, u) + PrintVersion(x, y) + [CR]
    case AtLine(d) => PrintHead(d)
    case AtName(d, n) => PrintHead(d) + n
    case AtColon(d, n) => PrintHead(d) + (n + [COLON])
    case AtValue(d, l) => PrintHead(d) + PrintLine(l)
    case AtBlank(d, ws) => PrintHead(d) + ws
    case AtLineCR(d, l) => PrintHead(d) + (PrintLine(l) + [CR])
    case AtEndCR(d) => PrintHead(d) + [CR]
  }

  /** The header fields a piece has recorded. */
  function PieceHeaders(p: Piece): seq<Header> {
    match p
    case AtLine(d) => DenoteLines(d.lines)
    case AtName(d, n) => DenoteLines(d.lines) + [Header(n, [])]
    case AtColon(d, n) => DenoteLines(d.lines) + [Header(n, [])]
    case AtValue(d, l) => AddLine(DenoteLines(d.lines), l)
    case AtBlank(d, ws) => DenoteLines(d.lines)
    case AtLineCR(d, l) => AddLine(DenoteLines(d.lines), l)
    case AtEndCR(d) => DenoteLines(d.lines)
    case _ => []
  }

  /** The request holds exactly what the piece has read; before "HTTP/" the version numbers are whatever they were. */
  ghost predicate Records(p: Piece, req: Request) {
    && req.headers == PieceHeaders(p)
    && match p
       case AtVerb(m) => req.verb == m && req.uri == []
       case AtUri(m, u) => req.verb == m && req.uri == u
       case AtProtocol(m, u, _) => req.verb == m && req.uri == u
       case AtMajor(m, u, x) => req.verb == m && req.uri == u && req.major == Value(10, x) && req.minor == 0
       case AtMinor(m, u, x, y) => req.verb == m && req.uri == u && req.major == Value(10, x) && req.minor == Value(10, y)
       case AtStartCR(m, u, x, y) => req.verb == m && req.uri == u && req.major == Value(10, x) && req.minor == Value(10, y)
       case _ =>
         && req.verb == p.d.verb && req.uri == p.d.uri
         && req.major == Value(10, p.d.major) && req.minor == Value(10, p.d.minor)
  }

  ghost predicate Explains(p: Piece, s: Bytes, st: State, req: Request) {
    ValidPiece(p) && PrintPiece(p) == s && StateOf(p) == st && Records(p, req)
  }

  /** A line whose text has one more byte. */
  function Extend(l: Line, c: Byte): Line {
    match l
    case Field(n, v) => Field(n, v + [c])
    case Fold(ws, t) => Fold(ws, t + [c])
  }

  /** The piece after one more byte. */
  function Next(p: Piece, c: Byte): Piece {
    match p
    case AtVerb(m) => if c == SP then AtUri(m, []) else AtVerb(m + [c])
    case AtUri(m, u) => if c == SP then AtProtocol(m, u, 0) else AtUri(m, u + [c])
    case AtProtocol(m, u, k) => if k < 4 then AtProtocol(m, u, k + 1) else AtMajor(m, u, [])
    case AtMajor(m, u, x) => if c == DOT then AtMinor(m, u, x, []) else AtMajor(m, u, x + [c])
    case AtMinor(m, u, x, y) => if c == CR then AtStartCR(m, u, x, y) else AtMinor(m, u, x, y + [c])
    case AtStartCR(m, u, x, y) => AtLine(Document(m, u, x, y, []))
    case AtLine(d) => if c == CR then AtEndCR(d) else if IsBlank(c) then AtBlank(d, [c]) else AtName(d, [c])
    case AtName(d, n) => if c == COLON then AtColon(d, n) else AtName(d, n + [c])
    case AtColon(d, n) => AtValue(d, Field(n, []))
    case AtValue(d, l) => if c == CR then AtLineCR(d, l) else AtValue(d, Extend(l, c))
    case AtBlank(d, ws) =>
      if c == CR then AtLineCR(d, Fold(ws, []))
      else if IsBlank(c) then AtBlank(d, ws + [c])
      else AtValue(d, Extend(Fold(ws, []), c))
    case AtLineCR(d, l) => AtLine(d.(lines := d.lines + [l]))
    case AtEndCR(d) => p
  }

  /** The bytes that may follow a piece. */
  predicate Allowed(p: Piece, c: Byte) {
    match p
    case AtVerb(m) => IsTokenChar(c) || (m != [] && c == SP)
    case AtUri(_, _) => c == SP || IsUriChar(c)
    case AtProtocol(_, _, k) => k < 5 && c == HTTP[k]
    case AtMajor(_, _, x) => IsDigit(c) || (x != [] && c == DOT)
    case AtMinor(_, _, _, y) => IsDigit(c) || (y != [] && c == CR)
    case AtStartCR(_, _, _, _) => c == LF
    case AtLine(d) => c == CR || (d.lines != [] && IsBlank(c)) || IsTokenChar(c)
    case AtName(_, _) => c == COLON || IsTokenChar(c)
    case AtColon(_, _) => c == SP
    case AtValue(_, _) => c == CR || IsTextChar(c)
    case AtBlank(_, _) => c == CR || IsBlank(c) || IsTextChar(c)
    case AtLineCR(_, _) => c == LF
    case AtEndCR(_) => c == LF
  }

  lemma PrintLineSnoc(d: Document, l: Line)
    ensures PrintHead(d.(lines := d.lines + [l])) == PrintHead(d) + PrintLine(l) + CRLF
  {
    assert (d.lines + [l])[..|d.lines|] == d.lines;
    assert PrintStart(d) + (PrintLines(d.lines) + PrintLine(l) + CRLF) == PrintHead(d) + PrintLine(l) + CRLF;
  }

  lemma NextPrintsTarget(p: Piece, c: Byte)
    requires p.AtVerb? || p.AtUri? || p.AtProtocol?
    requires Allowed(p, c)
    ensures PrintPiece(Next(p, c)) == PrintPiece(p) + [c]
  {
    if p.AtProtocol? {
      assert HTTP[..p.k + 1] == HTTP[..p.k] + [c];
    }
  }

  lemma NextPrintsVersion(p: Piece, c: Byte)
    requires p.AtMajor? || p.AtMinor? || p.AtStartCR?
    requires Allowed(p, c)
    ensures PrintPiece(Next(p, c)) == PrintPiece(p) + [c]
  {
    match p
    case AtMajor(m, u, x) =>
      assert HTTP + x + [c] == HTTP + (x + [c]);
      assert HTTP + x + [c] == HTTP + x + [c] + [];
      assert PrintTarget(m, u) + (HTTP + x) + [c] == PrintTarget(m, u) + (HTTP + x + [c]);
    case AtMinor(m, u, x, y) =>
      assert PrintVersion(x, y) + [c] == PrintVersion(x, y + [c]);
    case AtStartCR(m, u, x, y) =>
      assert PrintPiece(p) + [LF] == PrintStart(Document(m, u, x, y, [])) + [];
  }

  lemma ExtendPrints(l: Line, c: Byte)
    ensures PrintLine(Extend(l, c)) == PrintLine(l) + [c]
  {
  }

  lemma NextPrintsName(p: Piece, c: Byte)
    requires p.AtLine? || p.AtName? || p.AtColon?
    requires Allowed(p, c)
    ensures PrintPiece(Next(p, c)) == PrintPiece(p) + [c]
  {
    if p.AtName? {
      Associative(PrintHead(p.d), p.name, [c]);
    } else if p.AtColon? {
      Associative(PrintHead(p.d), p.name + [COLON], [SP]);
      assert p.name + [COLON] + [SP] == p.name + [COLON, SP] + [];
    }
  }

  lemma NextPrintsValue(p: Piece, c: Byte)
    requires p.AtValue? || p.AtBlank?
    requires Allowed(p, c)
    ensures PrintPiece(Next(p, c)) == PrintPiece(p) + [c]
  {
    var l := if p.AtValue? then p.line else Fold(p.ws, []);
    assert p.AtBlank? ==> PrintLine(l) == p.ws;
    Associative(PrintHead(p.d), PrintLine(l), [c]);
    ExtendPrints(l, c);
  }

  lemma NextPrintsLineCR(d: Document, l: Line)
    ensures PrintHead(d.(lines := d.lines + [l])) == PrintPiece(AtLineCR(d, l)) + [LF]
  {
    PrintLineSnoc(d, l);
    Associative(PrintHead(d), PrintLine(l), [CR]);
    Associative(PrintHead(d) + PrintLine(l), [CR], [LF]);
    assert [CR] + [LF] == CRLF;
  }

  /** Reading an allowed byte adds it to the printed piece. */
  lemma NextPrints(p: Piece, c: Byte)
    requires Allowed(p, c) && !p.AtEndCR?
    ensures PrintPiece(Next(p, c)) == PrintPiece(p) + [c]
  {
    if p.AtVerb? || p.AtUri? || p.AtProtocol? {
      NextPrintsTarget(p, c);
    } else if p.AtMajor? || p.AtMinor? || p.AtStartCR? {
      NextPrintsVersion(p, c);
    } else if p.AtLine? || p.AtName? || p.AtColon? {
      NextPrintsName(p, c);
    } else if p.AtValue? || p.AtBlank? {
      NextPrintsValue(p, c);
    } else {
      NextPrintsLineCR(p.d, p.line);
    }
  }

  lemma ValidLineSnoc(d: Document, l: Line)
    requires ValidDocument(d) && ValidNext(d, l)
    ensures ValidDocument(d.(lines := d.lines + [l]))
  {
  }

  /** Reading an allowed byte keeps the piece valid. */
  lemma NextIsValid(p: Piece, c: Byte)
    requires ValidPiece(p) && Allowed(p, c) && !p.AtEndCR?
    ensures ValidPiece(Next(p, c))
  {
    match p
    case AtVerb(_) =>
    case AtUri(_, _) =>
    case AtProtocol(_, _, _) =>
    case AtMajor(_, _, _) =>
    case AtMinor(_, _, _, _) =>
    case AtStartCR(_, _, _, _) =>
    case AtLine(_) =>
    case AtName(_, _) =>
    case AtColon(_, _) =>
    case AtValue(_, _) =>
    case AtBlank(_, _) =>
    case AtLineCR(d, l) =>
      ValidLineSnoc(d, l);
  }

  lemma DigitSnoc(ds: Bytes, c: Byte)
    requires IsDigit(c)
    ensures Value(10, ds + [c]) == Value(10, ds) * 10 + c - ZERO
  {
    assert (ds + [c])[..|ds|] == ds;
  }

  lemma AppendToLastName(headers: seq<Header>, n: Bytes, c: Byte)
    ensures AppendName(headers + [Header(n, [])], c) == headers + [Header(n + [c], [])]
  {
  }

  lemma AppendTwice(headers: seq<Header>, a: Bytes, b: Bytes)
    requires headers != []
    ensures AppendValue(AppendValue(headers, a), b) == AppendValue(headers, a + b)
  {
    var last := headers[|headers| - 1];
    assert last.value + a + b == last.value + (a + b);
  }

  lemma AppendNothing(headers: seq<Header>)
    requires headers != []
    ensures AppendValue(headers, []) == headers
  {
    var last := headers[|headers| - 1];
    assert last.value + [] == last.value;
  }

  lemma AddExtended(headers: seq<Header>, l: Line, c: Byte)
    requires l.Fold? ==> headers != []
    ensures AddLine(headers, l) != []
    ensures AppendValue(AddLine(headers, l), [c]) == AddLine(headers, Extend(l, c))
  {
    if l.Fold? {
      AppendTwice(headers, l.text, [c]);
    }
  }

  /** A folded line is only at hand when there is a header for it to continue. */
  predicate HasOwner(p: Piece) {
    match p
    case AtLine(d) => DenoteLines(d.lines) != [] <==> d.lines != []
    case AtValue(d, l) => l.Fold? ==> DenoteLines(d.lines) != []
    case AtBlank(d, ws) => DenoteLines(d.lines) != []
    case _ => true
  }

  /** The parser's verdict is that of the grammar, and it records what the grammar reads. */
  ghost predicate Follows(p: Piece, c: Byte, r: Configuration) {
    && r.verdict == (if !Allowed(p, c) then False else if p.AtEndCR? then True else Indeterminate)
    && (r.verdict == Indeterminate ==> StateOf(Next(p, c)) == r.st && Records(Next(p, c), r.req))
    && (r.verdict == True ==> Records(p, r.req))
  }

  lemma StepFollowsTarget(p: Piece, st: State, req: Request, c: Byte)
    requires p.AtVerb? || p.AtUri? || p.AtProtocol?
    requires StateOf(p) == st && Records(p, req) && (p.AtProtocol? ==> p.k < 5)
    ensures Usable(st, req) && Follows(p, c, Step(st, req, c))
  {
  }

  lemma StepFollowsVersion(p: Piece, st: State, req: Request, c: Byte)
    requires p.AtMajor? || p.AtMinor? || p.AtStartCR?
    requires StateOf(p) == st && Records(p, req)
    ensures Usable(st, req) && Follows(p, c, Step(st, req, c))
  {
    match p
    case AtMajor(m, u, x) => StepFollowsMajor(m, u, x, st, req, c);
    case AtMinor(m, u, x, y) => StepFollowsMinor(m, u, x, y, st, req, c);
    case AtStartCR(_, _, _, _) =>
  }

  lemma StepFollowsMajor(m: Bytes, u: Bytes, x: Bytes, st: State, req: Request, c: Byte)
    requires StateOf(AtMajor(m, u, x)) == st && Records(AtMajor(m, u, x), req)
    ensures Follows(AtMajor(m, u, x), c, Step(st, req, c))
  {
    if IsDigit(c) {
      DigitSnoc(x, c);
      assert Step(st, req, c) == Stay(InMajor, req.(major := Value(10, x + [c])));
    }
  }

  lemma StepFollowsMinor(m: Bytes, u: Bytes, x: Bytes, y: Bytes, st: State, req: Request, c: Byte)
    requires StateOf(AtMinor(m, u, x, y)) == st && Records(AtMinor(m, u, x, y), req)
    ensures Follows(AtMinor(m, u, x, y), c, Step(st, req, c))
  {
    if IsDigit(c) {
      DigitSnoc(y, c);
      assert Step(st, req, c) == Stay(InMinor, req.(minor := Value(10, y + [c])));
    }
  }

  lemma StepFollowsName(p: Piece, st: State, req: Request, c: Byte)
    requires p.AtLine? || p.AtName? || p.AtColon?
    requires StateOf(p) == st && Records(p, req) && HasOwner(p)
    ensures Usable(st, req) && Follows(p, c, Step(st, req, c))
  {
    if p.AtName? {
      AppendToLastName(DenoteLines(p.d.lines), p.name, c);
    }
  }

  lemma StepFollowsValue(d: Document, l: Line, req: Request, c: Byte)
    requires Records(AtValue(d, l), req) && HasOwner(AtValue(d, l))
    ensures Usable(HeaderValue, req) && Follows(AtValue(d, l), c, Step(HeaderValue, req, c))
  {
    AddExtended(DenoteLines(d.lines), l, c);
  }

  /** What a continuation line adds when its text is still empty, and with its first byte. */
  lemma BlankAddsNothing(headers: seq<Header>, ws: Bytes, c: Byte)
    requires headers != []
    ensures AddLine(headers, Fold(ws, [])) == headers
    ensures AddLine(headers, Extend(Fold(ws, []), c)) == AppendValue(headers, [c])
  {
    AppendNothing(headers);
    assert [] + [c] == [c];
  }

  lemma StepFollowsBlank(d: Document, ws: Bytes, req: Request, c: Byte)
    requires Records(AtBlank(d, ws), req) && HasOwner(AtBlank(d, ws))
    ensures Usable(HeaderLws, req) && Follows(AtBlank(d, ws), c, Step(HeaderLws, req, c))
  {
    BlankAddsNothing(DenoteLines(d.lines), ws, c);
  }

  lemma StepFollowsLineCR(d: Document, l: Line, req: Request, c: Byte)
    requires Records(AtLineCR(d, l), req)
    ensures Follows(AtLineCR(d, l), c, Step(Newline2, req, c))
  {
    assert (d.lines + [l])[..|d.lines|] == d.lines;
  }

  lemma StepFollowsLine(p: Piece, st: State, req: Request, c: Byte)
    requires p.AtValue? || p.AtBlank? || p.AtLineCR? || p.AtEndCR?
    requires StateOf(p) == st && Records(p, req) && HasOwner(p)
    ensures Usable(st, req) && Follows(p, c, Step(st, req, c))
  {
    match p
    case AtValue(d, l) => StepFollowsValue(d, l, req, c);
    case AtBlank(d, ws) => StepFollowsBlank(d, ws, req, c);
    case AtLineCR(d, l) => StepFollowsLineCR(d, l, req, c);
    case AtEndCR(_) =>
  }

  lemma ValidHasOwner(p: Piece)
    requires ValidPiece(p)
    ensures HasOwner(p)
  {
    if p.AtLine? || p.AtValue? || p.AtBlank? {
      HeadersOfLines(p.d.lines);
    }
  }

  /** One byte: rejected iff no derivation continues with it, otherwise the piece and the request grow together. */
  lemma {:induction false} StepAdvances(p: Piece, s: Bytes, st: State, req: Request, c: Byte)
    requires Explains(p, s, st, req)
    ensures Usable(st, req) && Follows(p, c, Step(st, req, c))
    ensures Allowed(p, c) && !p.AtEndCR? ==>
      var r := Step(st, req, c); Explains(Next(p, c), s + [c], r.st, r.req)
  {
    ValidHasOwner(p);
    if p.AtVerb? || p.AtUri? || p.AtProtocol? {
      StepFollowsTarget(p, st, req, c);
    } else if p.AtMajor? || p.AtMinor? || p.AtStartCR? {
      StepFollowsVersion(p, st, req, c);
    } else if p.AtLine? || p.AtName? || p.AtColon? {
      StepFollowsName(p, st, req, c);
    } else {
      StepFollowsLine(p, st, req, c);
    }
    if Allowed(p, c) && !p.AtEndCR? {
      NextPrints(p, c);
      NextIsValid(p, c);
    }
  }

  /** A new request: empty, with version numbers that are not initialised. */
  predicate Fresh(req: Request) {
    req.verb == [] && req.uri == [] && req.headers == []
  }

  const START: Piece := AtVerb([])

  /** The piece after some more bytes. */
  function Feed(p: Piece, w: Bytes): Piece {
    if w == [] then p else Next(Feed(p, w[..|w| - 1]), w[|w| - 1])
  }

  /** As long as the parser is undecided, its state and request are explained by a piece of a derivation. */
  lemma {:induction false} UndecidedIsExplained(req: Request, s: Bytes)
    requires Fresh(req) && Run(MethodStart, req, s).verdict == Indeterminate
    ensures var r := Run(MethodStart, req, s); Explains(Feed(START, s), s, r.st, r.req)
  {
    if s != [] {
      var init, c := s[..|s| - 1], s[|s| - 1];
      assert s == init + [c];
      RunAppend(MethodStart, req, init, [c]);
      UndecidedIsExplained(req, init);
      var r := Run(MethodStart, req, init);
      RunOne(r.st, r.req, c);
      StepAdvances(Feed(START, init), init, r.st, r.req, c);
    }
  }

  /** The bytes before the deciding one leave the parser undecided. */
  lemma DecidedAtLastByte(st: State, req: Request, s: Bytes)
    requires Usable(st, req) && Run(st, req, s).verdict != Indeterminate
    ensures var r := Run(st, req, s);
      var init := s[..r.consumed - 1];
      var before := Run(st, req, init);
      && before.verdict == Indeterminate
      && Step(before.st, before.req, s[r.consumed - 1]) == Configuration(r.verdict, r.st, r.req)
  {
    var r := Run(st, req, s);
    var init, c, rest := s[..r.consumed - 1], s[r.consumed - 1], s[r.consumed..];
    assert s == init + ([c] + rest);
    RunAppend(st, req, init, [c] + rest);
    var before := Run(st, req, init);
    RunAppend(before.st, before.req, [c], rest);
    RunOne(before.st, before.req, c);
  }

  lemma DecidingByte(st: State, req: Request, s: Bytes) returns (init: Bytes, c: Byte)
    requires Usable(st, req) && Run(st, req, s).verdict != Indeterminate
    ensures var r := Run(st, req, s);
      var before := Run(st, req, init);
      && s[..r.consumed] == init + [c]
      && before.verdict == Indeterminate && Step(before.st, before.req, c) == Configuration(r.verdict, r.st, r.req)
  {
    DecidedAtLastByte(st, req, s);
    var n := Run(st, req, s).consumed;
    init, c := s[..n - 1], s[n - 1];
  }

  lemma EndOfDocument(p: Piece, s: Bytes, req: Request)
    requires p.AtEndCR? && Explains(p, s, Newline3, req)
    ensures ValidDocument(p.d) && Print(p.d) == s + [LF] && req == Denote(p.d)
  {
    assert PrintHead(p.d) + [CR] + [LF] == PrintHead(p.d) + CRLF;
  }

  lemma AcceptingStep(p: Piece, s: Bytes, st: State, req: Request, c: Byte)
    requires Explains(p, s, st, req) && Usable(st, req) && Step(st, req, c).verdict == True
    ensures p.AtEndCR? && ValidDocument(p.d) && Print(p.d) == s + [c] && Step(st, req, c).req == Denote(p.d)
  {
    StepAdvances(p, s, st, req, c);
    EndOfDocument(p, s, req);
  }

  lemma AcceptedByByte(req: Request, init: Bytes, c: Byte)
    requires Fresh(req) && Run(MethodStart, req, init).verdict == Indeterminate
    requires var before := Run(MethodStart, req, init); Step(before.st, before.req, c).verdict == True
    ensures var p, before := Feed(START, init), Run(MethodStart, req, init);
      && p.AtEndCR? && ValidDocument(p.d) && Print(p.d) == init + [c]
      && Step(before.st, before.req, c).req == Denote(p.d)
  {
    UndecidedIsExplained(req, init);
    var before := Run(MethodStart, req, init);
    AcceptingStep(Feed(START, init), init, before.st, before.req, c);
  }

  /** What the parser accepts is a sentence, and the request is its meaning. */
  lemma {:induction false} AcceptedIsSentence(req: Request, s: Bytes) returns (d: Document)
    requires Fresh(req) && Run(MethodStart, req, s).verdict == True
    ensures var r := Run(MethodStart, req, s);
      ValidDocument(d) && Print(d) == s[..r.consumed] && r.req == Denote(d)
  {
    var init, c := DecidingByte(MethodStart, req, s);
    AcceptedByByte(req, init, c);
    d := Feed(START, init).d;
  }
}
