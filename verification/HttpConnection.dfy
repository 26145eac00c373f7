/** full_server/connection.cpp: one connection as a state machine over completion callbacks. */
module HttpConnection {
  import opened Wrappers
  import opened Bytes
  import opened HttpSyntax
  import opened RequestParser
  import opened ParserSoundness
  import opened ParserLanguage
  import opened Canonical
  import opened UrlDecoding
  import opened Reply
  import opened RequestHandler

  /**
   * The value of a connection. `reading` and `writing` count the operations started and not yet completed, `wire` is
   * what has been handed to `async_write`, one entry a call, and `calls` is the reply object each call of
   * `handle_request` was given.
   */
  datatype Conn = Conn(st: State, req: Request, reply: Reply, reading: nat, writing: nat,
                       wire: seq<Bytes>, calls: seq<Reply>, closed: bool)

  /** `handle_read`: `data` is what the completed read put into the buffer. */
  function OnRead(site: Site, k: Conn, error: bool, data: Bytes): Conn
    requires k.reading > 0 && Usable(k.st, k.req)
  {
    var done := k.(reading := k.reading - 1);
    if error then done
    else
      var r := Run(k.st, k.req, data);
      var parsed := done.(st := r.st, req := r.req);
      match r.verdict
      case True =>
        var reply := Answer(site, r.req, k.reply);
        parsed.(reply := reply, calls := k.calls + [k.reply], wire := k.wire + [PrintReply(reply)], writing := k.writing + 1)
      case False =>
        var reply := StockReply(400);
        parsed.(reply := reply, wire := k.wire + [PrintReply(reply)], writing := k.writing + 1)
      case Indeterminate =>
        parsed.(reading := k.reading)
  }

  /** `handle_write` */
  function OnWrite(k: Conn, error: bool): Conn
    requires k.writing > 0
  {
    k.(writing := k.writing - 1, closed := k.closed || !error)
  }

  const BUFFER_SIZE := 8192

  class Connection {
    const site: Site
    const buffer: array<Byte>
    const request: RequestRecord
    const parser: Parser
    const reply: ReplyRecord
    var reading: nat
    var writing: nat
    var wire: seq<Bytes>
    ghost var calls: seq<Reply>
    var closed: bool

    ghost function Contents(): Conn
      reads this, request, parser, reply
    {
      Conn(parser.state, request.Contents(), reply.Contents(), reading, writing, wire, calls, closed)
    }

    /** The constructor followed by `start`: the first read is under way. */
    constructor (site: Site, major: int, minor: int, status: int)
      ensures Contents() == Started(major, minor, status)
      ensures this.site == site && buffer.Length == BUFFER_SIZE
      ensures fresh(buffer) && fresh(request) && fresh(parser) && fresh(reply)
    {
      this.site := site;
      buffer := new Byte[BUFFER_SIZE](_ => 0);
      request := new RequestRecord(major, minor);
      parser := new Parser();
      reply := new ReplyRecord(status);
      reading, writing, wire, calls, closed := 1, 0, [], [], false;
    }

    method HandleRead(error: bool, bytesTransferred: nat)
      requires bytesTransferred <= buffer.Length
      requires reading > 0 && Usable(parser.state, request.Contents())
      modifies this, request, parser, reply
      ensures Contents() == old(OnRead(site, Contents(), error, buffer[..bytesTransferred]))
    {
      reading := reading - 1;
      if !error {
        var result, next := parser.Parse(request, buffer, 0, bytesTransferred);
        assert buffer[0..bytesTransferred] == buffer[..bytesTransferred];
        match result {
          case True =>
            calls := calls + [reply.Contents()];
            HandleRequest(site, Request(request.verb, request.uri, request.major, request.minor, request.headers), reply);
            Send();
          case False =>
            reply.AssignStock(400);
            Send();
          case Indeterminate =>
            reading := reading + 1;
        }
      }
    }

    /** `async_write(socket_, reply_.to_buffers(), ...)` */
    method Send()
      modifies this
      ensures Contents() == old(Contents()).(wire := old(wire) + [PrintReply(reply.Contents())], writing := old(writing) + 1)
    {
      var buffers := reply.ToBuffers();
      wire := wire + [Flatten(buffers)];
      writing := writing + 1;
    }

    method HandleWrite(error: bool)
      requires writing > 0
      modifies this
      ensures Contents() == old(OnWrite(Contents(), error))
    {
      writing := writing - 1;
      if !error {
        closed := true;
      }
    }
  }

  function Started(major: int, minor: int, status: int): Conn {
    Conn(MethodStart, Request([], [], major, minor, []), Reply(status, [], []), 1, 0, [], [], false)
  }

  // Runs of a connection.

  datatype Event = ReadDone(error: bool, data: Bytes) | WriteDone(error: bool)

  /** A completion can only be delivered for an operation that is under way. */
  predicate Possible(k: Conn, e: Event) {
    match e
    case ReadDone(_, _) => k.reading > 0 && Usable(k.st, k.req)
    case WriteDone(_) => k.writing > 0
  }

  function After(site: Site, k: Conn, e: Event): Conn
    requires Possible(k, e)
  {
    match e
    case ReadDone(error, data) => OnRead(site, k, error, data)
    case WriteDone(error) => OnWrite(k, error)
  }

  /** The connection after a sequence of completions, if each was possible in its turn. */
  function Execute(site: Site, k: Conn, events: seq<Event>): Option<Conn> {
    if events == [] then Some(k)
    else
      var before := Execute(site, k, events[..|events| - 1]);
      var e := events[|events| - 1];
      if before.Some? && Possible(before.value, e) then Some(After(site, before.value, e)) else None
  }

  /** The bytes the successful reads delivered. */
  function Received(events: seq<Event>): Bytes {
    if events == [] then []
    else
      var e := events[|events| - 1];
      Received(events[..|events| - 1]) + if e.ReadDone? && !e.error then e.data else []
  }

  /** What one `parse` over all received bytes determines. */
  ghost predicate Determined(site: Site, k0: Conn, k: Conn, received: Bytes) {
    var r := Run(MethodStart, k0.req, received);
    && k.st == r.st && k.req == r.req
    && match r.verdict
       case Indeterminate => k.wire == [] && k.calls == [] && k.reply == k0.reply && k.writing == 0 && k.reading <= 1
       case True => k.calls == [k0.reply] && k.reply == Answer(site, r.req, k0.reply) && Sent(k)
       case False => k.calls == [] && k.reply == StockReply(400) && Sent(k)
  }

  /** The reply is the one entry on the wire, it stays as it was when the write began, and nothing is read any more. */
  ghost predicate Sent(k: Conn) {
    k.wire == [PrintReply(k.reply)] && k.reading == 0 && k.writing <= 1
  }

  lemma AfterRead(site: Site, k0: Conn, k: Conn, received: Bytes, error: bool, data: Bytes)
    requires Fresh(k0.req) && Determined(site, k0, k, received) && k.reading > 0 && Usable(k.st, k.req)
    ensures Determined(site, k0, OnRead(site, k, error, data), received + if error then [] else data)
  {
    assert received + [] == received;
    RunAppend(MethodStart, k0.req, received, data);
  }

  /** Every run, whatever the chunks, reaches what one parse of all bytes determines. */
  lemma {:induction false} RunIsDetermined(site: Site, major: int, minor: int, status: int, events: seq<Event>)
    requires Execute(site, Started(major, minor, status), events).Some?
    ensures var k0 := Started(major, minor, status);
      Determined(site, k0, Execute(site, k0, events).value, Received(events))
  {
    var k0 := Started(major, minor, status);
    if events != [] {
      var init, e := events[..|events| - 1], events[|events| - 1];
      RunIsDetermined(site, major, minor, status, init);
      var k := Execute(site, k0, init).value;
      match e
      case ReadDone(error, data) =>
        AfterRead(site, k0, k, Received(init), error, data);
      case WriteDone(_) =>
        assert Received(init) + [] == Received(init);
    }
  }

  /** What goes on the wire for a stream of bytes, by one parse of it. */
  function Response(site: Site, k0: Conn, stream: Bytes): seq<Bytes> {
    var r := Run(MethodStart, Request([], [], k0.req.major, k0.req.minor, []), stream);
    match r.verdict
    case Indeterminate => []
    case True => [PrintReply(Answer(site, r.req, k0.reply))]
    case False => [PrintReply(StockReply(400))]
  }

  lemma DecidedForStream(req0: Request, received: Bytes, stream: Bytes)
    requires Fresh(req0) && received <= stream
    ensures var r := Run(MethodStart, req0, received);
      if r.verdict == Indeterminate then ProperPrefix(received) else Run(MethodStart, req0, stream) == r
  {
    assert stream == received + stream[|received|..];
    RunAppend(MethodStart, req0, received, stream[|received|..]);
    UndecidedExactlyOnProperPrefixes(req0, received);
  }

  /**
   * However a stream is cut into reads: a connection that has decided has decided as one parse of the stream does,
   * with the same request, and has put the same bytes on the wire; one that has not can still be made to accept.
   */
  lemma {:induction false} ChunkingIndependence(site: Site, major: int, minor: int, status: int, events: seq<Event>, stream: Bytes)
    requires Execute(site, Started(major, minor, status), events).Some?
    requires Received(events) <= stream
    ensures var k0 := Started(major, minor, status);
      var k := Execute(site, k0, events).value;
      var r := Run(MethodStart, k0.req, stream);
      if k.wire == [] then ProperPrefix(Received(events))
      else k.wire == Response(site, k0, stream) && k.st == r.st && k.req == r.req
  {
    RunIsDetermined(site, major, minor, status, events);
    DecidedForStream(Started(major, minor, status).req, Received(events), stream);
  }

  /** A connection ends with a read error or a completed write. */
  predicate Ends(e: Event) {
    e.WriteDone? || e.error
  }

  /**
   * Until it ends a connection has exactly one operation under way, and after that nothing can happen any more; it is
   * shut down exactly by a write that succeeded.
   */
  lemma {:induction false} OneOperationUntilTheEnd(site: Site, major: int, minor: int, status: int, events: seq<Event>)
    requires Execute(site, Started(major, minor, status), events).Some?
    ensures var k := Execute(site, Started(major, minor, status), events).value;
      && k.reading + k.writing == (if events != [] && Ends(events[|events| - 1]) then 0 else 1)
      && (k.closed <==> events != [] && events[|events| - 1] == WriteDone(false))
  {
    if events != [] {
      OneOperationUntilTheEnd(site, major, minor, status, events[..|events| - 1]);
    }
  }

  /**
   * `handle_request` runs at most once and finds an empty reply; at most one write starts, and its buffers stay valid.
   * The parser can be resumed in every state a connection reaches.
   */
  lemma HandledAtMostOnce(site: Site, major: int, minor: int, status: int, events: seq<Event>)
    requires Execute(site, Started(major, minor, status), events).Some?
    ensures var k := Execute(site, Started(major, minor, status), events).value;
      && Usable(k.st, k.req)
      && |k.calls| <= |k.wire| <= 1
      && (forall before | before in k.calls :: before.headers == [] && before.content == [])
      && (k.writing > 0 ==> k.wire == [PrintReply(k.reply)])
  {
    RunIsDetermined(site, major, minor, status, events);
  }

  /** Whatever a client sends, what it is sent back can be read as a reply of the server. */
  lemma {:induction false} WireIsReadable(site: Site, major: int, minor: int, status: int, events: seq<Event>)
    requires Execute(site, Started(major, minor, status), events).Some?
    ensures var k := Execute(site, Started(major, minor, status), events).value;
      k.wire != [] ==>
        && ReadReply(k.wire[0]) == Some(k.reply)
        && k.reply.status in {200, 400, 404} && k.reply.headers != []
        && Value(10, k.reply.headers[0].value) == |k.reply.content|
  {
    RunIsDetermined(site, major, minor, status, events);
    var k0 := Started(major, minor, status);
    var k := Execute(site, k0, events).value;
    var r := Run(MethodStart, k0.req, Received(events));
    if r.verdict == True {
      AnswerOnTheWire(site, r.req, k0.reply);
    } else if r.verdict == False {
      StockIsLabelled(400);
      LabelledIsReadable(StockReply(400));
      ReplyRoundTrip(StockReply(400));
      ValueOfNumeral(10, |StockReply(400).content|);
    }
  }

  /** The path a client asks for, and the one that is looked up for it: a directory stands for its index. */
  ghost predicate LooksUp(path: Bytes, target: Bytes) {
    && path != [] && path[0] == SLASH
    && (forall i | 0 <= i < |path| - 1 :: !(path[i] == DOT && path[i + 1] == DOT))
    && target == if path[|path| - 1] == SLASH then path + Ascii("index.html") else path
  }

  /**
   * A client prints a well-formed request for a path, in any legal encoding, and the network cuts the bytes up in any
   * way. The connection answers as soon as the request is complete, and the answer reads as status 200 with exactly
   * the file if there is one for the path, and as the stock reply 404 otherwise.
   */
  lemma {:induction false} RequestedFileIsServed(site: Site, major: int, minor: int, status: int, events: seq<Event>,
                              req: Request, us: seq<Unit>, path: Bytes, target: Bytes)
    requires Execute(site, Started(major, minor, status), events).Some?
    requires ReadsHexPairs(site.hex) && LegalEncoding(us, path) && LooksUp(path, target)
    requires WellFormed(req) && req.uri == PrintUnits(us)
    requires Received(events) <= PrintRequest(req)
    ensures var k := Execute(site, Started(major, minor, status), events).value;
      var file := CString(site.docRoot + target);
      && (k.wire == [] <==> Received(events) < PrintRequest(req))
      && (k.wire != [] ==>
            && k.req == req
            && ReadReply(k.wire[0]) ==
               Some(if file in site.files then FileReply(site.files[file], Extension(target)) else StockReply(404)))
  {
    var k0 := Started(major, minor, status);
    var printed := PrintRequest(req);
    PrintThenParse(k0.req, req, []);
    assert printed + [] == printed;
    RunIsDetermined(site, major, minor, status, events);
    PrefixDecidesLast(k0.req, Received(events), printed);
    AnswerToPath(site, req, us, path, target, k0.reply);
    assert Received(events) == printed || Received(events) < printed;
  }

  lemma AnswerToPath(site: Site, req: Request, us: seq<Unit>, path: Bytes, target: Bytes, before: Reply)
    requires ReadsHexPairs(site.hex) && LegalEncoding(us, path) && req.uri == PrintUnits(us)
    requires LooksUp(path, target) && before.content == []
    ensures var file := CString(site.docRoot + target);
      var rep := if file in site.files then FileReply(site.files[file], Extension(target)) else StockReply(404);
      Answer(site, req, before) == rep && ReadReply(PrintReply(rep)) == Some(rep)
  {
    DecodeInvertsEncoding(site.hex, us, path);
    PathOfRequest(site, req.uri);
    assert path + [] == path;
    AnswerOnTheWire(site, req, before);
    var file := CString(site.docRoot + target);
    if file in site.files {
      assert [] + site.files[file] == site.files[file];
    }
  }

  /** Bytes that can no longer become a request are answered by the stock reply 400, whatever the chunks. */
  lemma {:induction false} HopelessBytesAreRefused(site: Site, major: int, minor: int, status: int, events: seq<Event>)
    requires Execute(site, Started(major, minor, status), events).Some?
    requires forall n | 0 <= n <= |Received(events)| :: !Sentence(Received(events)[..n])
    ensures var k := Execute(site, Started(major, minor, status), events).value;
      if ProperPrefix(Received(events)) then k.wire == []
      else |k.wire| == 1 && ReadReply(k.wire[0]) == Some(StockReply(400))
  {
    var req0 := Started(major, minor, status).req;
    var received := Received(events);
    RunIsDetermined(site, major, minor, status, events);
    UndecidedExactlyOnProperPrefixes(req0, received);
    AcceptsExactlySentences(req0, received, Run(MethodStart, req0, received).consumed);
    StockIsLabelled(400);
    LabelledOnTheWire(StockReply(400));
  }

  /** In every state of a connection exactly the operations under way can complete. */
  lemma CompletionsArePossible(site: Site, major: int, minor: int, status: int, events: seq<Event>, error: bool, data: Bytes)
    requires Execute(site, Started(major, minor, status), events).Some?
    ensures var k := Execute(site, Started(major, minor, status), events).value;
      && (Possible(k, ReadDone(error, data)) <==> k.reading > 0)
      && (Possible(k, WriteDone(error)) <==> k.writing > 0)
  {
    HandledAtMostOnce(site, major, minor, status, events);
  }

  /** If the parser accepts `s` at its last byte, it is undecided on every shorter prefix. */
  lemma PrefixDecidesLast(req0: Request, p: Bytes, s: Bytes)
    requires Fresh(req0) && p <= s
    requires Run(MethodStart, req0, s).verdict == True && Run(MethodStart, req0, s).consumed == |s|
    ensures Run(MethodStart, req0, p).verdict == Indeterminate <==> p < s
  {
    assert s == p + s[|p|..];
    RunAppend(MethodStart, req0, p, s[|p|..]);
    assert |p| == |s| ==> p == s;
  }
}
