/** The language the parser accepts is the language of the grammar, and it decides at the earliest possible byte. */
module ParserLanguage {
  import opened Bytes
  import opened HttpSyntax
  import opened RequestParser
  import opened ParserSoundness

  /** Every byte of `w` is allowed in its turn. */
  ghost predicate AllAllowed(p: Piece, w: Bytes) {
    w == [] ||
    var init := w[..|w| - 1];
    AllAllowed(p, init) && !Feed(p, init).AtEndCR? && Allowed(Feed(p, init), w[|w| - 1])
  }

  /** Reading `w` takes the piece `p` to `q`. */
  ghost predicate Reads(p: Piece, w: Bytes, q: Piece) {
    AllAllowed(p, w) && Feed(p, w) == q
  }

  lemma {:induction false} ReadsThen(p: Piece, a: Bytes, q: Piece, b: Bytes, r: Piece)
    requires Reads(p, a, q) && Reads(q, b, r)
    ensures Reads(p, a + b, r)
    decreases |b|
  {
    if b == [] {
      assert a + b == a;
    } else {
      var init := b[..|b| - 1];
      ReadsThen(p, a, q, init, Feed(q, init));
      assert (a + b)[..|a + b| - 1] == a + init;
    }
  }

  lemma ReadsOne(p: Piece, c: Byte)
    requires Allowed(p, c) && !p.AtEndCR?
    ensures Reads(p, [c], Next(p, c))
  {
    var init := [c][..0];
    assert init == [] && AllAllowed(p, init) && Feed(p, init) == p;
  }

  lemma ReadsThenOne(p: Piece, a: Bytes, q: Piece, c: Byte)
    requires Reads(p, a, q) && Allowed(q, c) && !q.AtEndCR?
    ensures Reads(p, a + [c], Next(q, c))
  {
    ReadsOne(q, c);
    ReadsThen(p, a, q, [c], Next(q, c));
  }

  lemma {:induction false} ReadsVerb(w: Bytes)
    requires Token(w)
    ensures Reads(START, w, AtVerb(w))
  {
    if w != [] {
      var init, c := w[..|w| - 1], w[|w| - 1];
      assert w == init + [c];
      ReadsVerb(init);
      ReadsThenOne(START, init, AtVerb(init), c);
    }
  }

  lemma {:induction false} ReadsUri(m: Bytes, w: Bytes)
    requires Uri(w)
    ensures Reads(AtUri(m, []), w, AtUri(m, w))
  {
    if w != [] {
      var init, c := w[..|w| - 1], w[|w| - 1];
      assert w == init + [c];
      ReadsUri(m, init);
      ReadsThenOne(AtUri(m, []), init, AtUri(m, init), c);
    }
  }

  lemma {:induction false} ReadsProtocol(m: Bytes, u: Bytes, k: nat)
    requires k <= 5
    ensures Reads(AtProtocol(m, u, 0), HTTP[..k], if k < 5 then AtProtocol(m, u, k) else AtMajor(m, u, []))
  {
    if k > 0 {
      ReadsProtocol(m, u, k - 1);
      assert HTTP[..k][..k - 1] == HTTP[..k - 1];
    }
  }

  lemma {:induction false} ReadsMajor(m: Bytes, u: Bytes, w: Bytes)
    requires Digits(w)
    ensures Reads(AtMajor(m, u, []), w, AtMajor(m, u, w))
  {
    if w != [] {
      var init, c := w[..|w| - 1], w[|w| - 1];
      assert w == init + [c];
      ReadsMajor(m, u, init);
      ReadsThenOne(AtMajor(m, u, []), init, AtMajor(m, u, init), c);
    }
  }

  lemma {:induction false} ReadsMinor(m: Bytes, u: Bytes, x: Bytes, w: Bytes)
    requires Digits(w)
    ensures Reads(AtMinor(m, u, x, []), w, AtMinor(m, u, x, w))
  {
    if w != [] {
      var init, c := w[..|w| - 1], w[|w| - 1];
      assert w == init + [c];
      ReadsMinor(m, u, x, init);
      ReadsThenOne(AtMinor(m, u, x, []), init, AtMinor(m, u, x, init), c);
    }
  }

  lemma {:induction false} ReadsName(d: Document, w: Bytes)
    requires w != [] && Token(w)
    ensures Reads(AtLine(d), w, AtName(d, w))
  {
    var init, c := w[..|w| - 1], w[|w| - 1];
    assert w == init + [c];
    if init == [] {
      ReadsOne(AtLine(d), c);
    } else {
      ReadsName(d, init);
      ReadsThenOne(AtLine(d), init, AtName(d, init), c);
    }
  }

  function ExtendAll(l: Line, w: Bytes): Line {
    match l
    case Field(n, v) => Field(n, v + w)
    case Fold(ws, t) => Fold(ws, t + w)
  }

  lemma {:induction false} ReadsValue(d: Document, l: Line, w: Bytes)
    requires Text(w)
    ensures Reads(AtValue(d, l), w, AtValue(d, ExtendAll(l, w)))
  {
    if w == [] {
      assert ExtendAll(l, w) == l;
    } else {
      var init, c := w[..|w| - 1], w[|w| - 1];
      ReadsValue(d, l, init);
      assert w == init + [c];
      assert ExtendAll(l, w) == Extend(ExtendAll(l, init), c);
    }
  }

  lemma {:induction false} ReadsBlank(d: Document, w: Bytes)
    requires w != [] && Blank(w) && d.lines != []
    ensures Reads(AtLine(d), w, AtBlank(d, w))
  {
    var init, c := w[..|w| - 1], w[|w| - 1];
    assert w == init + [c];
    if init == [] {
      ReadsOne(AtLine(d), c);
    } else {
      ReadsBlank(d, init);
      ReadsThenOne(AtLine(d), init, AtBlank(d, init), c);
    }
  }

  lemma ReadsTarget(m: Bytes, u: Bytes)
    requires m != [] && Token(m) && Uri(u)
    ensures Reads(START, PrintTarget(m, u), AtProtocol(m, u, 0))
  {
    ReadsVerb(m);
    ReadsThenOne(START, m, AtVerb(m), SP);
    ReadsUri(m, u);
    ReadsThen(START, m + [SP], AtUri(m, []), u, AtUri(m, u));
    ReadsThenOne(START, m + [SP] + u, AtUri(m, u), SP);
  }

  lemma ReadsVersion(m: Bytes, u: Bytes, x: Bytes, y: Bytes)
    requires x != [] && Digits(x) && y != [] && Digits(y)
    ensures Reads(AtProtocol(m, u, 0), PrintVersion(x, y), AtMinor(m, u, x, y))
  {
    var p := AtProtocol(m, u, 0);
    ReadsProtocol(m, u, 5);
    assert HTTP[..5] == HTTP;
    ReadsMajor(m, u, x);
    ReadsThen(p, HTTP, AtMajor(m, u, []), x, AtMajor(m, u, x));
    ReadsThenOne(p, HTTP + x, AtMajor(m, u, x), DOT);
    ReadsMinor(m, u, x, y);
    ReadsThen(p, HTTP + x + [DOT], AtMinor(m, u, x, []), y, AtMinor(m, u, x, y));
  }

  lemma ReadsStart(d: Document)
    requires ValidStart(d) && d.lines == []
    ensures Reads(START, PrintStart(d), AtLine(d))
  {
    var target, version := PrintTarget(d.verb, d.uri), PrintVersion(d.major, d.minor);
    ReadsTarget(d.verb, d.uri);
    ReadsVersion(d.verb, d.uri, d.major, d.minor);
    var p := AtMinor(d.verb, d.uri, d.major, d.minor);
    ReadsThen(START, target, AtProtocol(d.verb, d.uri, 0), version, p);
    ReadsThenOne(START, target + version, p, CR);
    ReadsThenOne(START, target + version + [CR], Next(p, CR), LF);
    assert target + version + [CR] + [LF] == PrintStart(d);
  }

  lemma ReadsField(d: Document, n: Bytes, v: Bytes)
    requires n != [] && Token(n) && Text(v)
    ensures Reads(AtLine(d), PrintLine(Field(n, v)), AtValue(d, Field(n, v)))
  {
    ReadsName(d, n);
    ReadsThenOne(AtLine(d), n, AtName(d, n), COLON);
    ReadsThenOne(AtLine(d), n + [COLON], AtColon(d, n), SP);
    assert n + [COLON] + [SP] == n + [COLON, SP];
    ReadsValue(d, Field(n, []), v);
    assert [] + v == v;
    ReadsThen(AtLine(d), n + [COLON, SP], AtValue(d, Field(n, [])), v, AtValue(d, Field(n, v)));
  }

  lemma ReadsFold(d: Document, ws: Bytes, t: Bytes)
    requires d.lines != [] && ValidLine(Fold(ws, t))
    ensures Reads(AtLine(d), PrintLine(Fold(ws, t)), if t == [] then AtBlank(d, ws) else AtValue(d, Fold(ws, t)))
  {
    ReadsBlank(d, ws);
    if t == [] {
      assert ws + t == ws;
    } else {
      var c, rest := t[0], t[1..];
      assert t == [c] + rest;
      ReadsThenOne(AtLine(d), ws, AtBlank(d, ws), c);
      assert Extend(Fold(ws, []), c) == Fold(ws, [c]);
      ReadsFoldText(AtLine(d), ws + [c], d, Fold(ws, [c]), rest);
      Associative(ws, [c], rest);
    }
  }

  lemma ReadsFoldText(p: Piece, a: Bytes, d: Document, l: Line, rest: Bytes)
    requires Text(rest) && Reads(p, a, AtValue(d, l))
    ensures Reads(p, a + rest, AtValue(d, ExtendAll(l, rest)))
  {
    ReadsValue(d, l, rest);
    ReadsThen(p, a, AtValue(d, l), rest, AtValue(d, ExtendAll(l, rest)));
  }

  lemma ReadsLine(d: Document, l: Line)
    requires ValidNext(d, l)
    ensures Reads(AtLine(d), PrintLine(l) + CRLF, AtLine(d.(lines := d.lines + [l])))
  {
    if l.Field? {
      ReadsField(d, l.name, l.value);
      ReadsThenOne(AtLine(d), PrintLine(l), AtValue(d, l), CR);
    } else {
      ReadsFold(d, l.ws, l.text);
      ReadsThenOne(AtLine(d), PrintLine(l), if l.text == [] then AtBlank(d, l.ws) else AtValue(d, l), CR);
    }
    ReadsThenOne(AtLine(d), PrintLine(l) + [CR], AtLineCR(d, l), LF);
    assert PrintLine(l) + [CR] + [LF] == PrintLine(l) + CRLF;
  }

  lemma {:induction false} ReadsHead(d: Document)
    requires ValidDocument(d)
    ensures Reads(START, PrintHead(d), AtLine(d))
    decreases |d.lines|
  {
    if d.lines == [] {
      ReadsStart(d);
      assert PrintHead(d) == PrintStart(d);
    } else {
      var init, l := d.(lines := d.lines[..|d.lines| - 1]), d.lines[|d.lines| - 1];
      assert init.lines + [l] == d.lines;
      assert d == init.(lines := init.lines + [l]);
      ReadsHead(init);
      ReadsLine(init, l);
      ReadsThen(START, PrintHead(init), AtLine(init), PrintLine(l) + CRLF, AtLine(d));
      PrintLineSnoc(init, l);
      assert PrintHead(init) + (PrintLine(l) + CRLF) == PrintHead(d);
    }
  }

  /** A derivation can be read back from the bytes it prints, so no two derivations print the same. */
  lemma Unambiguous(d: Document, e: Document)
    requires ValidDocument(d) && ValidDocument(e) && Print(d) == Print(e)
    ensures d == e
  {
    ReadsToEndCR(d);
    ReadsToEndCR(e);
    assert PrintHead(d) + [CR] == Print(d)[..|Print(d)| - 1];
    assert PrintHead(e) + [CR] == Print(e)[..|Print(e)| - 1];
  }

  /** The parser stays undecided over allowed bytes. */
  lemma {:induction false} AllowedIsUndecided(req: Request, w: Bytes)
    requires Fresh(req) && AllAllowed(START, w)
    ensures Run(MethodStart, req, w).verdict == Indeterminate
  {
    if w != [] {
      var init, c := w[..|w| - 1], w[|w| - 1];
      assert w == init + [c];
      AllowedIsUndecided(req, init);
      UndecidedIsExplained(req, init);
      RunAppend(MethodStart, req, init, [c]);
      var r := Run(MethodStart, req, init);
      StepAdvances(Feed(START, init), init, r.st, r.req, c);
      RunOne(r.st, r.req, c);
    }
  }

  lemma ReadsToEndCR(d: Document)
    requires ValidDocument(d)
    ensures Reads(START, PrintHead(d) + [CR], AtEndCR(d))
  {
    ReadsHead(d);
    ReadsThenOne(START, PrintHead(d), AtLine(d), CR);
  }

  lemma LastByteAccepts(req: Request, d: Document)
    requires Fresh(req) && ValidDocument(d)
    ensures var r := Run(MethodStart, req, PrintHead(d) + [CR]);
      r.verdict == Indeterminate && Step(r.st, r.req, LF) == Configuration(True, Newline3, Denote(d))
  {
    var w := PrintHead(d) + [CR];
    ReadsToEndCR(d);
    AllowedIsUndecided(req, w);
    UndecidedIsExplained(req, w);
    EndAccepts(AtEndCR(d), w, Run(MethodStart, req, w).st, Run(MethodStart, req, w).req);
  }

  lemma EndAccepts(p: Piece, s: Bytes, st: State, req: Request)
    requires p.AtEndCR? && Explains(p, s, st, req)
    ensures Usable(st, req) && Step(st, req, LF) == Configuration(True, Newline3, Denote(p.d))
  {
    EndOfDocument(p, s, req);
  }

  /** Every derivation is accepted, whatever bytes follow it: exactly its own bytes are used, and its meaning is recorded. */
  lemma SentenceIsAccepted(req: Request, d: Document, t: Bytes)
    requires Fresh(req) && ValidDocument(d)
    ensures Run(MethodStart, req, Print(d) + t) == Outcome(True, |Print(d)|, Newline3, Denote(d))
  {
    var w := PrintHead(d) + [CR];
    LastByteAccepts(req, d);
    var r := Run(MethodStart, req, w);
    RunOne(r.st, r.req, LF);
    RunAppend(r.st, r.req, [LF], t);
    RunAppend(MethodStart, req, w, [LF] + t);
    assert Print(d) + t == w + ([LF] + t);
  }

  /** A derivation that a piece begins. */
  function Completed(p: Piece): Document {
    match p
    case AtVerb(m) => Document(if m == [] then [71] else m, [], [ZERO], [ZERO], [])
    case AtUri(m, u) => Document(m, u, [ZERO], [ZERO], [])
    case AtProtocol(m, u, _) => Document(m, u, [ZERO], [ZERO], [])
    case AtMajor(m, u, x) => Document(m, u, if x == [] then [ZERO] else x, [ZERO], [])
    case AtMinor(m, u, x, y) => Document(m, u, x, if y == [] then [ZERO] else y, [])
    case AtStartCR(m, u, x, y) => Document(m, u, x, y, [])
    case AtLine(d) => d
    case AtName(d, n) => d.(lines := d.lines + [Field(n, [])])
    case AtColon(d, n) => d.(lines := d.lines + [Field(n, [])])
    case AtValue(d, l) => d.(lines := d.lines + [l])
    case AtBlank(d, ws) => d.(lines := d.lines + [Fold(ws, [])])
    case AtLineCR(d, l) => d.(lines := d.lines + [l])
    case AtEndCR(d) => d
  }

  lemma StartIsProperPrefix(p: Piece)
    requires p.AtVerb? || p.AtUri? || p.AtProtocol? || p.AtMajor? || p.AtMinor? || p.AtStartCR?
    ensures PrintPiece(p) < Print(Completed(p))
  {
    var d := Completed(p);
    var target, version := PrintTarget(d.verb, d.uri), PrintVersion(d.major, d.minor);
    assert Print(d) == target + version + CRLF + [] + CRLF;
    match p
    case AtVerb(m) =>
    case AtUri(m, u) =>
    case AtProtocol(m, u, k) =>
      assert k <= 5 ==> HTTP[..k] <= HTTP <= version;
    case AtMajor(m, u, x) =>
      assert HTTP + x <= version;
    case AtMinor(m, u, x, y) =>
      assert PrintVersion(x, y) <= version;
    case AtStartCR(m, u, x, y) =>
  }

  lemma PrefixInside(head: Bytes, w: Bytes, line: Bytes, t: Bytes)
    requires w <= line && t != []
    ensures head + w < head + line + t
  {
    assert head + line + t == head + (line + t);
  }

  lemma LineIsProperPrefix(d: Document, l: Line, w: Bytes)
    requires w <= PrintLine(l) + [CR]
    ensures PrintHead(d) + w < Print(d.(lines := d.lines + [l]))
  {
    PrintLineSnoc(d, l);
    PrefixInside(PrintHead(d), w, PrintLine(l) + [CR], [LF] + CRLF);
    LineEnd(PrintHead(d), PrintLine(l));
  }

  lemma LineEnd(head: Bytes, line: Bytes)
    ensures head + (line + [CR]) + ([LF] + CRLF) == head + line + CRLF + CRLF
  {
  }

  lemma PieceIsProperPrefix(p: Piece)
    ensures PrintPiece(p) < Print(Completed(p))
  {
    match p
    case AtLine(d) =>
    case AtEndCR(d) =>
    case AtName(d, n) => LineIsProperPrefix(d, Field(n, []), n);
    case AtColon(d, n) => LineIsProperPrefix(d, Field(n, []), n + [COLON]);
    case AtValue(d, l) => LineIsProperPrefix(d, l, PrintLine(l));
    case AtBlank(d, ws) => LineIsProperPrefix(d, Fold(ws, []), ws);
    case AtLineCR(d, l) => LineIsProperPrefix(d, l, PrintLine(l) + [CR]);
    case _ => StartIsProperPrefix(p);
  }

  lemma CompletedIsValid(p: Piece)
    requires ValidPiece(p)
    ensures ValidDocument(Completed(p))
  {
    if p.AtName? || p.AtColon? {
      ValidLineSnoc(p.d, Field(p.name, []));
    } else if p.AtValue? || p.AtLineCR? {
      ValidLineSnoc(p.d, p.line);
    } else if p.AtBlank? {
      ValidLineSnoc(p.d, Fold(p.ws, []));
    }
  }

  /** While the parser is undecided there is a continuation it would accept. */
  lemma UndecidedIsProperPrefix(req: Request, s: Bytes)
    requires Fresh(req) && Run(MethodStart, req, s).verdict == Indeterminate
    ensures ProperPrefix(s)
  {
    UndecidedIsExplained(req, s);
    var p := Feed(START, s);
    var d := Completed(p);
    CompletedIsValid(p);
    PieceIsProperPrefix(p);
    var t := Print(d)[|s|..];
    assert s + t == Print(d);
    assert Sentence(s + t);
  }

  /** If `s` followed by `t` is a sentence, the parser accepts it at its last byte and not before. */
  lemma ViableVerdict(req: Request, s: Bytes, t: Bytes)
    requires Fresh(req) && Sentence(s + t)
    ensures Run(MethodStart, req, s).verdict == if t == [] then True else Indeterminate
    ensures t == [] ==> Run(MethodStart, req, s).consumed == |s|
  {
    var d :| ValidDocument(d) && Print(d) == s + t;
    SentenceIsAccepted(req, d, []);
    assert Print(d) + [] == s + t;
    RunAppend(MethodStart, req, s, t);
    assert t == [] ==> s + t == s;
  }

  lemma SentencePrefixAccepted(req: Request, s: Bytes, n: nat)
    requires Fresh(req) && n <= |s| && Sentence(s[..n])
    ensures var r := Run(MethodStart, req, s); r.verdict == True && r.consumed == n
  {
    var d :| ValidDocument(d) && Print(d) == s[..n];
    SentenceIsAccepted(req, d, s[n..]);
    assert s[..n] + s[n..] == s;
  }

  /** `parse` returns true after n bytes iff those n bytes are a sentence of the grammar. */
  lemma {:induction false} AcceptsExactlySentences(req: Request, s: Bytes, n: nat)
    requires Fresh(req)
    ensures var r := Run(MethodStart, req, s);
      r.verdict == True && r.consumed == n <==> n <= |s| && Sentence(s[..n])
  {
    var r := Run(MethodStart, req, s);
    if r.verdict == True && r.consumed == n {
      var d := AcceptedIsSentence(req, s);
    }
    if n <= |s| && Sentence(s[..n]) {
      SentencePrefixAccepted(req, s, n);
    }
  }

  /** `parse` asks for more iff all bytes so far can be continued to a sentence. */
  lemma {:induction false} UndecidedExactlyOnProperPrefixes(req: Request, s: Bytes)
    requires Fresh(req)
    ensures Run(MethodStart, req, s).verdict == Indeterminate <==> ProperPrefix(s)
  {
    if Run(MethodStart, req, s).verdict == Indeterminate {
      UndecidedIsProperPrefix(req, s);
    }
    if ProperPrefix(s) {
      var t :| t != [] && Sentence(s + t);
      ViableVerdict(req, s, t);
    }
  }

  lemma RejectedIsNotViable(req: Request, s: Bytes)
    requires Fresh(req) && Run(MethodStart, req, s).verdict == False
    ensures !Viable(s)
  {
    forall t | Sentence(s + t) ensures false {
      ViableVerdict(req, s, t);
    }
  }

  /** The bytes after the deciding one play no part. */
  lemma DecidedPrefix(st: State, req: Request, s: Bytes)
    requires Usable(st, req) && Run(st, req, s).verdict != Indeterminate
    ensures Run(st, req, s[..Run(st, req, s).consumed]) == Run(st, req, s)
  {
    var n := Run(st, req, s).consumed;
    assert s[..n] + s[n..] == s;
    RunAppend(st, req, s[..n], s[n..]);
  }

  lemma RejectedIsHopeless(req: Request, s: Bytes)
    requires Fresh(req) && Run(MethodStart, req, s).verdict == False
    ensures var n := Run(MethodStart, req, s).consumed; ProperPrefix(s[..n - 1]) && !Viable(s[..n])
  {
    DecidedAtLastByte(MethodStart, req, s);
    UndecidedIsProperPrefix(req, s[..Run(MethodStart, req, s).consumed - 1]);
    DecidedPrefix(MethodStart, req, s);
    RejectedIsNotViable(req, s[..Run(MethodStart, req, s).consumed]);
  }

  lemma HopelessByteIsRejected(req: Request, a: Bytes, c: Byte, rest: Bytes)
    requires Fresh(req) && ProperPrefix(a) && !Viable(a + [c])
    ensures var r := Run(MethodStart, req, a + [c] + rest); r.verdict == False && r.consumed == |a| + 1
  {
    UndecidedExactlyOnProperPrefixes(req, a);
    HopelessIsRejected(req, a + [c]);
    DecidedByByte(MethodStart, req, a, c, rest);
  }

  lemma DecidedByByte(st: State, req: Request, a: Bytes, c: Byte, rest: Bytes)
    requires Usable(st, req)
    requires Run(st, req, a).verdict == Indeterminate && Run(st, req, a + [c]).verdict != Indeterminate
    ensures Run(st, req, a + [c] + rest) == Run(st, req, a + [c]) && Run(st, req, a + [c]).consumed == |a| + 1
  {
    RunAppend(st, req, a, [c]);
    RunAppend(st, req, a + [c], rest);
  }

  /** `parse` rejects exactly at the first byte after which no sentence is possible. */
  lemma {:induction false} RejectsAtFirstHopelessByte(req: Request, s: Bytes, n: nat)
    requires Fresh(req)
    ensures var r := Run(MethodStart, req, s);
      r.verdict == False && r.consumed == n
      <==> 0 < n <= |s| && ProperPrefix(s[..n - 1]) && !Viable(s[..n])
  {
    if Run(MethodStart, req, s).verdict == False {
      RejectedIsHopeless(req, s);
    }
    if 0 < n <= |s| && ProperPrefix(s[..n - 1]) && !Viable(s[..n]) {
      assert s[..n] == s[..n - 1] + [s[n - 1]];
      assert s == s[..n - 1] + [s[n - 1]] + s[n..];
      HopelessByteIsRejected(req, s[..n - 1], s[n - 1], s[n..]);
    }
  }

  lemma HopelessIsRejected(req: Request, s: Bytes)
    requires Fresh(req) && !Viable(s)
    ensures var r := Run(MethodStart, req, s);
      r.verdict == False || (r.verdict == True && r.consumed < |s|)
  {
    AcceptsExactlySentences(req, s, |s|);
    UndecidedExactlyOnProperPrefixes(req, s);
    assert s[..|s|] == s == s + [];
  }

  /** No sentence begins another. */
  lemma PrefixFree(a: Bytes, b: Bytes)
    requires Sentence(a) && Sentence(a + b)
    ensures b == []
  {
    var req := Request([], [], 0, 0, []);
    assert a + [] == a;
    ViableVerdict(req, a, []);
    ViableVerdict(req, a, b);
  }
}
