/** full_server/request_handler.cpp: from a request to a reply by way of a file. */
module RequestHandler {
  import opened Wrappers
  import opened Bytes
  import opened HttpSyntax
  import opened UrlDecoding
  import opened Reply

  const NUL: Byte := 0
  const INDEX_HTML: Bytes := [105, 110, 100, 101, 120, 46, 104, 116, 109, 108] // "index.html"

  /** The files that can be opened, by path, and the root under which requests are looked up. */
  datatype Site = Site(hex: HexReader, docRoot: Bytes, files: map<Bytes, Bytes>)

  /** `find("..") != npos` */
  predicate HasDotDot(s: Bytes) {
    exists i | 0 <= i < |s| - 1 :: s[i] == DOT && s[i + 1] == DOT
  }

  /** `find_last_of(c)` */
  function LastOf(s: Bytes, c: Byte): (r: Option<nat>)
    ensures r.None? ==> forall k | 0 <= k < |s| :: s[k] != c
    ensures r.Some? ==> r.value < |s| && s[r.value] == c && forall k | r.value < k < |s| :: s[k] != c
  {
    if s == [] then None
    else if s[|s| - 1] == c then Some(|s| - 1)
    else LastOf(s[..|s| - 1], c)
  }

  predicate Acceptable(path: Bytes) {
    path != [] && path[0] == SLASH && !HasDotDot(path)
  }

  /** A directory stands for its index. */
  function WithIndex(path: Bytes): Bytes
    requires path != []
  {
    if path[|path| - 1] == SLASH then path + INDEX_HTML else path
  }

  /** The path to look up under the root, if the request has one. */
  function RequestPath(site: Site, uri: Bytes): Option<Bytes> {
    var path := Decode(site.hex, uri);
    if path.None? || !Acceptable(path.value) then None else Some(WithIndex(path.value))
  }

  function Extension(path: Bytes): Bytes {
    var slash, dot := LastOf(path, SLASH), LastOf(path, DOT);
    if dot.Some? && slash.Some? && dot.value > slash.value then path[dot.value + 1..] else []
  }

  /** `c_str()`: what the operating system sees of a string. */
  function CString(s: Bytes): Bytes {
    s[..FirstOf(s, NUL)]
  }

  function ContentType(extension: Bytes): Bytes {
    if extension == Ascii("gif") then Ascii("image/gif")
    else if extension == Ascii("htm") || extension == Ascii("html") then Ascii("text/html")
    else if extension == Ascii("jpg") then Ascii("image/jpeg")
    else if extension == Ascii("png") then Ascii("image/png")
    else Ascii("text/plain")
  }

  function FileReply(content: Bytes, extension: Bytes): Reply {
    Reply(200, [
      Header(Ascii("Content-Length"), Numeral(10, |content|)),
      Header(Ascii("Content-Type"), ContentType(extension))
    ], content)
  }

  /** The reply to a request; `before` is what the reply object held. */
  function Answer(site: Site, req: Request, before: Reply): Reply {
    var path := RequestPath(site, req.uri);
    if path.None? then StockReply(400)
    else
      var target := CString(site.docRoot + path.value);
      if target !in site.files then StockReply(404)
      else FileReply(before.content + site.files[target], Extension(path.value))
  }

  /** The 512-byte read loop. */
  method AppendFile(file: Bytes, rep: ReplyRecord)
    modifies rep
    ensures rep.Contents() == old(rep.Contents()).(content := old(rep.content) + file)
  {
    var position := 0;
    assert rep.content + [] == rep.content;
    while position < |file|
      invariant 0 <= position <= |file|
      invariant rep.Contents() == old(rep.Contents()).(content := old(rep.content) + file[..position])
      decreases |file| - position
    {
      var count := if |file| - position < 512 then |file| - position else 512;
      assert file[..position + count] == file[..position] + file[position..position + count];
      rep.content := rep.content + file[position..position + count];
      position := position + count;
    }
    assert file[..position] == file;
  }

  /** Fill out the reply for a file that was opened. */
  method SendFile(file: Bytes, extension: Bytes, rep: ReplyRecord)
    modifies rep
    ensures rep.Contents() == FileReply(old(rep.content) + file, extension)
  {
    rep.status := 200;
    AppendFile(file, rep);
    rep.headers := [
      Header(Ascii("Content-Length"), Numeral(10, |rep.content|)),
      Header(Ascii("Content-Type"), ContentType(extension))
    ];
  }

  /** Decode the URI and check it; false where the request is refused. */
  method FindPath(site: Site, uri: Bytes) returns (ok: bool, path: Bytes)
    ensures ok <==> RequestPath(site, uri).Some?
    ensures ok ==> path == RequestPath(site, uri).value
  {
    ok, path := UrlDecode(site.hex, uri);
    if !ok {
      return;
    }
    if path == [] || path[0] != SLASH || HasDotDot(path) {
      return false, path;
    }
    if path[|path| - 1] == SLASH {
      path := path + INDEX_HTML;
    }
  }

  method HandleRequest(site: Site, req: Request, rep: ReplyRecord)
    modifies rep
    ensures rep.Contents() == Answer(site, req, old(rep.Contents()))
  {
    var ok, path := FindPath(site, req.uri);
    if !ok {
      rep.AssignStock(400);
      return;
    }
    var extension := Extension(path);
    var target := CString(site.docRoot + path);
    if target !in site.files {
      rep.AssignStock(404);
      return;
    }
    SendFile(site.files[target], extension, rep);
  }

  // Paths stay under the root.

  /** The segments of a path. */
  function Segments(s: Bytes): (r: seq<Bytes>)
    ensures r != []
    decreases |s|
  {
    var i := FirstOf(s, SLASH);
    if i == |s| then [s] else [s[..i]] + Segments(s[i + 1..])
  }

  /** How a segment moves in the directory tree. */
  function Move(segment: Bytes): int {
    if segment == [DOT, DOT] then -1 else if segment == [] || segment == [DOT] then 0 else 1
  }

  function Depth(segments: seq<Bytes>): int {
    if segments == [] then 0 else Depth(segments[..|segments| - 1]) + Move(segments[|segments| - 1])
  }

  lemma SliceHasNoDotDot(s: Bytes, a: nat, b: nat)
    requires a <= b <= |s| && !HasDotDot(s)
    ensures !HasDotDot(s[a..b])
  {
    forall i | 0 <= i < b - a - 1 ensures !(s[a..b][i] == DOT && s[a..b][i + 1] == DOT) {
      assert !(s[a + i] == DOT && s[(a + i) + 1] == DOT);
    }
  }

  lemma {:induction false} NoSegmentIsDotDot(s: Bytes)
    requires !HasDotDot(s)
    ensures forall i | 0 <= i < |Segments(s)| :: Segments(s)[i] != [DOT, DOT]
    decreases |s|
  {
    var i := FirstOf(s, SLASH);
    SliceHasNoDotDot(s, 0, i);
    var up: Bytes := [DOT, DOT];
    assert up[0] == DOT && up[0 + 1] == DOT && HasDotDot(up);
    if i == |s| {
      assert s[0..i] == s;
    } else {
      SliceHasNoDotDot(s, i + 1, |s|);
      assert s[i + 1..|s|] == s[i + 1..];
      assert s[0..i] == s[..i];
      NoSegmentIsDotDot(s[i + 1..]);
    }
  }

  lemma {:induction false} DepthWithoutDotDot(segments: seq<Bytes>)
    requires forall i | 0 <= i < |segments| :: segments[i] != [DOT, DOT]
    ensures Depth(segments) >= 0
  {
    if segments != [] {
      DepthWithoutDotDot(segments[..|segments| - 1]);
    }
  }

  /** A path that starts at the root and never leaves it. */
  ghost predicate Contained(s: Bytes) {
    && s != [] && s[0] == SLASH && !HasDotDot(s)
    && forall k | 0 <= k <= |Segments(s)| :: Depth(Segments(s)[..k]) >= 0
  }

  lemma AcceptableIsContained(s: Bytes)
    requires Acceptable(s)
    ensures Contained(s)
  {
    NoSegmentIsDotDot(s);
    forall k | 0 <= k <= |Segments(s)| ensures Depth(Segments(s)[..k]) >= 0 {
      DepthWithoutDotDot(Segments(s)[..k]);
    }
  }

  lemma IndexKeepsAcceptable(s: Bytes)
    requires Acceptable(s) && s[|s| - 1] == SLASH
    ensures Acceptable(s + INDEX_HTML)
  {
    var t := s + INDEX_HTML;
    forall i | 0 <= i < |t| - 1 ensures !(t[i] == DOT && t[i + 1] == DOT) {
      assert i < |s| - 1 ==> !(s[i] == DOT && s[i + 1] == DOT);
    }
  }

  /** A zero byte ends the path that is opened. */
  lemma CStringEndsAtZero(a: Bytes, b: Bytes)
    requires forall i | 0 <= i < |a| :: a[i] != 0
    ensures CString(a) == a && CString(a + [0] + b) == a
  {
    FirstIs(a + [0] + b, NUL, |a|);
  }

  lemma CStringOfRooted(root: Bytes, path: Bytes)
    requires NUL !in root && Acceptable(path)
    ensures CString(root + path) == root + CString(path)
    ensures Acceptable(CString(path))
  {
    var i := FirstOf(path, NUL);
    forall k | 0 <= k < |root| ensures root[k] != NUL {
      assert root[k] in root;
    }
    if i < |path| {
      FirstIs(root + path, NUL, |root| + i);
    } else {
      assert FirstOf(root + path, NUL) == |root + path|;
    }
    SliceHasNoDotDot(path, 0, i);
    assert path[0..i] == path[..i];
  }

  /** Whatever a request asks for, the file looked up is the root followed by a path that never climbs above it. */
  lemma LookupStaysUnderRoot(site: Site, uri: Bytes)
    requires NUL !in site.docRoot && RequestPath(site, uri).Some?
    ensures var path := RequestPath(site, uri).value;
      && Contained(path)
      && CString(site.docRoot + path) == site.docRoot + CString(path) && Contained(CString(path))
  {
    var decoded := Decode(site.hex, uri).value;
    if decoded[|decoded| - 1] == SLASH {
      IndexKeepsAcceptable(decoded);
    }
    var path := RequestPath(site, uri).value;
    CStringOfRooted(site.docRoot, path);
    AcceptableIsContained(path);
    AcceptableIsContained(CString(path));
  }

  /**
   * A request has no path exactly if its URI does not decode, or decodes to a path that is not absolute or has "..";
   * otherwise a path that ends in a slash stands for its index.html and any other for itself.
   */
  lemma PathOfRequest(site: Site, uri: Bytes)
    ensures var path := Decode(site.hex, uri);
      RequestPath(site, uri) ==
      if path.None? || path.value == [] || path.value[0] != 47
         || (exists i | 0 <= i < |path.value| - 1 :: path.value[i] == 46 == path.value[i + 1]) then None
      else Some(path.value + if path.value[|path.value| - 1] == 47 then Ascii("index.html") else [])
  {
    var path := Decode(site.hex, uri);
    if path.Some? {
      assert path.value + [] == path.value;
      assert Ascii("index.html") == INDEX_HTML;
    }
  }

  /** Position `k` holds the last dot of the last segment. */
  predicate LastDot(path: Bytes, k: nat) {
    k < |path| && path[k] == DOT && forall j | k < j < |path| :: path[j] != SLASH && path[j] != DOT
  }

  /** The extension is what follows the last dot of the last segment; without a dot there it is empty. */
  lemma ExtensionIsPlain(path: Bytes)
    requires path != [] && path[0] == SLASH
    ensures LastOf(path, SLASH).Some?
    ensures forall k: nat | LastDot(path, k) :: Extension(path) == path[k + 1..]
    ensures Extension(path) != [] ==> LastDot(path, |path| - |Extension(path)| - 1)
    ensures forall k | 0 <= k < |Extension(path)| :: Extension(path)[k] != SLASH && Extension(path)[k] != DOT
  {
    forall k: nat | LastDot(path, k) ensures Extension(path) == path[k + 1..] {
      ExtensionAfterDot(path, k);
    }
    if Extension(path) != [] {
      assert LastDot(path, LastOf(path, DOT).value);
      ExtensionAfterDot(path, LastOf(path, DOT).value);
    }
  }

  lemma ExtensionAfterDot(path: Bytes, k: nat)
    requires path != [] && path[0] == SLASH && LastDot(path, k)
    ensures Extension(path) == path[k + 1..]
    ensures forall i | 0 <= i < |Extension(path)| :: Extension(path)[i] != SLASH && Extension(path)[i] != DOT
  {
    LastIs(path, DOT, k);
    assert LastOf(path, SLASH).value < k;
  }

  lemma LastIs(s: Bytes, c: Byte, k: nat)
    requires k < |s| && s[k] == c && forall j | k < j < |s| :: s[j] != c
    ensures LastOf(s, c) == Some(k)
  {
  }

  /** The types of the five known extensions; everything else is plain text. */
  lemma TypeOfExtension(extension: Bytes)
    ensures ContentType(extension) == Ascii("image/gif") <==> extension == [103, 105, 102]
    ensures ContentType(extension) == Ascii("text/html") <==> extension in {[104, 116, 109], [104, 116, 109, 108]}
    ensures ContentType(extension) == Ascii("image/jpeg") <==> extension == [106, 112, 103]
    ensures ContentType(extension) == Ascii("image/png") <==> extension == [112, 110, 103]
    ensures ContentType(extension) == Ascii("text/plain") <==>
      extension !in {[103, 105, 102], [104, 116, 109], [104, 116, 109, 108], [106, 112, 103], [112, 110, 103]}
  {
    TypesDiffer();
    assert Ascii("gif") == [103, 105, 102] && Ascii("htm") == [104, 116, 109] && Ascii("html") == [104, 116, 109, 108];
    assert Ascii("jpg") == [106, 112, 103] && Ascii("png") == [112, 110, 103];
  }

  lemma TypesDiffer()
    ensures var gif, html, jpeg, png, plain :=
      Ascii("image/gif"), Ascii("text/html"), Ascii("image/jpeg"), Ascii("image/png"), Ascii("text/plain");
      gif != html && gif != jpeg && gif != png && gif != plain && html != jpeg && html != png && html != plain
      && jpeg != png && jpeg != plain && png != plain
  {
    assert Ascii("image/gif")[6] == 103 && Ascii("image/jpeg")[6] == 106 && Ascii("image/png")[6] == 112;
    assert Ascii("text/html")[5] == 104 && Ascii("text/plain")[5] == 112;
    assert Ascii("image/gif")[0] == Ascii("image/jpeg")[0] == Ascii("image/png")[0] == 105;
    assert Ascii("text/html")[0] == Ascii("text/plain")[0] == 116;
  }

  // Replies are always well labelled and can be read back.

  lemma {:induction false} NumeralHasNoCR(n: nat)
    ensures forall i | 0 <= i < |Numeral(10, n)| :: Numeral(10, n)[i] != CR
  {
    ValueOfNumeral(10, n);
  }

  lemma PlainText(s: string)
    requires '\r' !in s
    ensures forall i | 0 <= i < |Ascii(s)| :: Ascii(s)[i] != CR
    ensures ':' !in s ==> forall i | 0 <= i < |Ascii(s)| :: Ascii(s)[i] != COLON
  {
    forall i | 0 <= i < |s| ensures Ascii(s)[i] != CR && (':' !in s ==> Ascii(s)[i] != COLON) {
      assert s[i] in s;
    }
  }

  lemma ContentTypeHasNoCR(extension: Bytes)
    ensures forall i | 0 <= i < |ContentType(extension)| :: ContentType(extension)[i] != CR
  {
    PlainText("image/gif");
    PlainText("text/html");
    PlainText("image/jpeg");
    PlainText("image/png");
    PlainText("text/plain");
  }

  /** The two headers of every reply of the server. */
  ghost predicate Labelled(rep: Reply) {
    && |rep.headers| == 2
    && rep.headers[0] == Header(Ascii("Content-Length"), Numeral(10, |rep.content|))
    && rep.headers[1].name == Ascii("Content-Type")
    && (forall i | 0 <= i < |rep.headers[1].value| :: rep.headers[1].value[i] != CR)
  }

  lemma LabelledIsReadable(rep: Reply)
    requires Labelled(rep)
    ensures AllReadable(rep.headers)
  {
    NumeralHasNoCR(|rep.content|);
    PlainText("Content-Length");
    PlainText("Content-Type");
    assert rep.headers[1..][1..] == [];
  }

  lemma StockIsLabelled(status: int)
    ensures Labelled(StockReply(status)) && StockReply(status).headers[1].value == Ascii("text/html")
  {
    PlainText("text/html");
  }

  lemma FileIsLabelled(content: Bytes, extension: Bytes)
    ensures Labelled(FileReply(content, extension))
  {
    ContentTypeHasNoCR(extension);
  }

  /** Stock replies and file replies declare the length of the content they carry. */
  lemma {:induction false} AnswerIsLabelled(site: Site, req: Request, before: Reply)
    ensures Labelled(Answer(site, req, before)) && Listed(Answer(site, req, before).status)
  {
    StockIsLabelled(400);
    StockIsLabelled(404);
    var path := RequestPath(site, req.uri);
    if path.Some? && CString(site.docRoot + path.value) in site.files {
      FileIsLabelled(before.content + site.files[CString(site.docRoot + path.value)], Extension(path.value));
    }
  }

  lemma AnswerByStatus(site: Site, req: Request, before: Reply)
    ensures var rep := Answer(site, req, before);
      && (rep.status == 400 <==> RequestPath(site, req.uri).None?)
      && (rep.status == 404 <==>
            RequestPath(site, req.uri).Some? && CString(site.docRoot + RequestPath(site, req.uri).value) !in site.files)
      && (rep.status == 200 && before.content == [] ==>
            && RequestPath(site, req.uri).Some?
            && CString(site.docRoot + RequestPath(site, req.uri).value) in site.files
            && rep.content == site.files[CString(site.docRoot + RequestPath(site, req.uri).value)])
  {
  }

  lemma LabelledOnTheWire(rep: Reply)
    requires Labelled(rep) && Listed(rep.status)
    ensures ReadReply(PrintReply(rep)) == Some(rep)
    ensures Value(10, rep.headers[0].value) == |rep.content|
  {
    LabelledIsReadable(rep);
    ReplyRoundTrip(rep);
    ValueOfNumeral(10, |rep.content|);
  }

  /**
   * End to end: a client that reads the bytes of the answer gets the status, the headers and the content back; the
   * number in Content-Length counts exactly the bytes after the blank line; 400 means that there is no acceptable path
   * and 404 that there is no file for it; with an empty reply object a successful answer carries exactly the file.
   */
  lemma {:induction false} AnswerOnTheWire(site: Site, req: Request, before: Reply)
    ensures var rep := Answer(site, req, before);
      && ReadReply(PrintReply(rep)) == Some(rep)
      && Value(10, rep.headers[0].value) == |rep.content|
      && (rep.status == 400 <==> RequestPath(site, req.uri).None?)
      && (rep.status == 404 <==>
            RequestPath(site, req.uri).Some? && CString(site.docRoot + RequestPath(site, req.uri).value) !in site.files)
      && (rep.status == 200 && before.content == [] ==>
            && RequestPath(site, req.uri).Some?
            && CString(site.docRoot + RequestPath(site, req.uri).value) in site.files
            && rep.content == site.files[CString(site.docRoot + RequestPath(site, req.uri).value)])
  {
    AnswerByStatus(site, req, before);
    AnswerIsLabelled(site, req, before);
    LabelledOnTheWire(Answer(site, req, before));
  }
}
