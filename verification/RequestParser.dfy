/** The incremental request parser of full_server/request_parser.{hpp,cpp}. */
module RequestParser {
  import opened Bytes
  import opened HttpSyntax

  /** boost::tribool */
  datatype Tribool = True | False | Indeterminate

  datatype State =
    | MethodStart | InMethod | UriStart | InUri
    | VersionH | VersionT1 | VersionT2 | VersionP | VersionSlash
    | MajorStart | InMajor | MinorStart | InMinor
    | Newline1 | LineStart | HeaderLws | HeaderName | SpaceBeforeValue | HeaderValue
    | Newline2 | Newline3

  /** Where `consume` touches `headers.back()`, there is a header. */
  predicate Usable(st: State, req: Request) {
    st in {HeaderLws, HeaderName, SpaceBeforeValue, HeaderValue} ==> req.headers != []
  }

  datatype Configuration = Configuration(verdict: Tribool, st: State, req: Request)

  function Stay(st: State, req: Request): Configuration {
    Configuration(Indeterminate, st, req)
  }

  function Reject(st: State, req: Request): Configuration {
    Configuration(False, st, req)
  }

  function Expect(c: Byte, wanted: Byte, st: State, next: State, req: Request): Configuration {
    if c == wanted then Stay(next, req) else Reject(st, req)
  }

  function AppendName(headers: seq<Header>, c: Byte): (r: seq<Header>)
    requires headers != []
    ensures |r| == |headers|
  {
    var last := headers[|headers| - 1];
    headers[..|headers| - 1] + [last.(name := last.name + [c])]
  }

  /** `request_parser::consume` on values: the verdict, the state it leaves and the request it leaves. */
  function Step(st: State, req: Request, c: Byte): (r: Configuration)
    requires Usable(st, req)
    ensures Usable(r.st, r.req)
    ensures r.verdict == True ==> st == Newline3 && c == LF
  {
    match st
    case MethodStart =>
      if !IsTokenChar(c) then Reject(st, req)
      else Stay(InMethod, req.(verb := req.verb + [c]))
    case InMethod =>
      if c == SP then Stay(InUri, req)
      else if !IsTokenChar(c) then Reject(st, req)
      else Stay(st, req.(verb := req.verb + [c]))
    case UriStart =>
      if IsCtl(c) then Reject(st, req)
      else Stay(InUri, req.(uri := req.uri + [c]))
    case InUri =>
      if c == SP then Stay(VersionH, req)
      else if IsCtl(c) then Reject(st, req)
      else Stay(st, req.(uri := req.uri + [c]))
    case VersionH => Expect(c, 72, st, VersionT1, req)
    case VersionT1 => Expect(c, 84, st, VersionT2, req)
    case VersionT2 => Expect(c, 84, st, VersionP, req)
    case VersionP => Expect(c, 80, st, VersionSlash, req)
    case VersionSlash => Expect(c, SLASH, st, MajorStart, if c == SLASH then req.(major := 0, minor := 0) else req)
    case MajorStart =>
      if IsDigit(c) then Stay(InMajor, req.(major := req.major * 10 + c - ZERO))
      else Reject(st, req)
    case InMajor =>
      if c == DOT then Stay(MinorStart, req)
      else if IsDigit(c) then Stay(st, req.(major := req.major * 10 + c - ZERO))
      else Reject(st, req)
    case MinorStart =>
      if IsDigit(c) then Stay(InMinor, req.(minor := req.minor * 10 + c - ZERO))
      else Reject(st, req)
    case InMinor =>
      if c == CR then Stay(Newline1, req)
      else if IsDigit(c) then Stay(st, req.(minor := req.minor * 10 + c - ZERO))
      else Reject(st, req)
    case Newline1 => Expect(c, LF, st, LineStart, req)
    case LineStart =>
      if c == CR then Stay(Newline3, req)
      else if req.headers != [] && IsBlank(c) then Stay(HeaderLws, req)
      else if !IsTokenChar(c) then Reject(st, req)
      else Stay(HeaderName, req.(headers := req.headers + [Header([c], [])]))
    case HeaderLws =>
      if c == CR then Stay(Newline2, req)
      else if IsBlank(c) then Stay(st, req)
      else if IsCtl(c) then Reject(st, req)
      else Stay(HeaderValue, req.(headers := AppendValue(req.headers, [c])))
    case HeaderName =>
      if c == COLON then Stay(SpaceBeforeValue, req)
      else if !IsTokenChar(c) then Reject(st, req)
      else Stay(st, req.(headers := AppendName(req.headers, c)))
    case SpaceBeforeValue => Expect(c, SP, st, HeaderValue, req)
    case HeaderValue =>
      if c == CR then Stay(Newline2, req)
      else if IsCtl(c) then Reject(st, req)
      else Stay(st, req.(headers := AppendValue(req.headers, [c])))
    case Newline2 => Expect(c, LF, st, LineStart, req)
    case Newline3 => Configuration(if c == LF then True else False, st, req)
  }

  datatype Outcome = Outcome(verdict: Tribool, consumed: nat, st: State, req: Request)

  /** `request_parser::parse` on values: consume bytes until one decides, or all are used up. */
  function Run(st: State, req: Request, s: Bytes): (r: Outcome)
    requires Usable(st, req)
    ensures r.consumed <= |s|
    ensures r.verdict == Indeterminate ==> r.consumed == |s|
    ensures r.verdict != Indeterminate ==> r.consumed > 0
    ensures Usable(r.st, r.req)
    decreases |s|
  {
    if s == [] then Outcome(Indeterminate, 0, st, req)
    else
      var c := Step(st, req, s[0]);
      if c.verdict != Indeterminate then Outcome(c.verdict, 1, c.st, c.req)
      else
        var r := Run(c.st, c.req, s[1..]);
        r.(consumed := r.consumed + 1)
  }

  /** Parsing can be interrupted anywhere: an undecided prefix hands its state and request on to the rest. */
  lemma {:induction false} RunAppend(st: State, req: Request, a: Bytes, b: Bytes)
    requires Usable(st, req)
    ensures
      var first := Run(st, req, a);
      Run(st, req, a + b) ==
      if first.verdict != Indeterminate then first
      else
        var rest := Run(first.st, first.req, b);
        rest.(consumed := rest.consumed + |a|)
    decreases |a|
  {
    if a == [] {
      assert a + b == b;
    } else {
      assert (a + b)[0] == a[0] && (a + b)[1..] == a[1..] + b;
      var c := Step(st, req, a[0]);
      if c.verdict == Indeterminate {
        RunAppend(c.st, c.req, a[1..], b);
      }
    }
  }

  /** After `k` bytes have left `st` and `req`, the bytes left decide what the run of all of them comes to. */
  ghost predicate HasRead(whole: Outcome, st: State, req: Request, s: Bytes, k: nat) {
    && Usable(st, req) && k <= |s|
    && forall rest | rest == s[k..] :: EndsAs(whole, st, req, rest, k)
  }

  ghost predicate EndsAs(whole: Outcome, st: State, req: Request, rest: Bytes, k: nat)
    requires Usable(st, req)
  {
    var r := Run(st, req, rest);
    whole == r.(consumed := r.consumed + k)
  }

  /** The same when the last of the `k` bytes may have decided. */
  ghost predicate AfterStep(whole: Outcome, c: Configuration, s: Bytes, k: nat) {
    if c.verdict != Indeterminate then whole == Outcome(c.verdict, k, c.st, c.req) else HasRead(whole, c.st, c.req, s, k)
  }

  lemma ReadOneMore(whole: Outcome, st: State, req: Request, s: Bytes, k: nat)
    requires HasRead(whole, st, req, s, k) && k < |s|
    ensures AfterStep(whole, Step(st, req, s[k]), s, k + 1)
  {
    assert EndsAs(whole, st, req, s[k..], k);
    assert s[k..][1..] == s[k + 1..];
  }

  lemma ReadAll(whole: Outcome, st: State, req: Request, s: Bytes)
    requires HasRead(whole, st, req, s, |s|)
    ensures whole == Outcome(Indeterminate, |s|, st, req)
  {
    assert EndsAs(whole, st, req, s[|s|..], |s|);
  }

  lemma RunOne(st: State, req: Request, c: Byte)
    requires Usable(st, req)
    ensures var n := Step(st, req, c); Run(st, req, [c]) == Outcome(n.verdict, 1, n.st, n.req)
  {
    assert [c][1..] == [];
  }

  /** full_server/request.hpp: the request object that `consume` fills in place. */
  class RequestRecord {
    var verb: Bytes
    var uri: Bytes
    var major: int
    var minor: int
    var headers: seq<Header>

    /** The version numbers of a new object are not initialised. */
    constructor (major: int, minor: int)
      ensures Contents() == Request([], [], major, minor, [])
    {
      verb, uri, headers := [], [], [];
      this.major, this.minor := major, minor;
    }

    ghost function Contents(): Request
      reads this
    {
      Request(verb, uri, major, minor, headers)
    }
  }

  /** full_server/request_parser.hpp: `request_parser`. */
  class Parser {
    var state: State

    constructor ()
      ensures state == MethodStart
    {
      state := MethodStart;
    }

    method Reset()
      modifies this
      ensures state == MethodStart
    {
      state := MethodStart;
    }

    method Consume(req: RequestRecord, input: Byte) returns (verdict: Tribool)
      requires Usable(state, req.Contents())
      modifies this, req
      ensures Configuration(verdict, state, req.Contents()) == old(Step(state, req.Contents(), input))
    {
      verdict := Indeterminate;
      match state {
        case MethodStart =>
          if !IsChar(input) || IsCtl(input) || IsTspecial(input) {
            verdict := False;
          } else {
            state := InMethod;
            req.verb := req.verb + [input];
          }
        case InMethod =>
          if input == SP {
            state := InUri;
          } else if !IsChar(input) || IsCtl(input) || IsTspecial(input) {
            verdict := False;
          } else {
            req.verb := req.verb + [input];
          }
        case UriStart =>
          if IsCtl(input) {
            verdict := False;
          } else {
            state := InUri;
            req.uri := req.uri + [input];
          }
        case InUri =>
          if input == SP {
            state := VersionH;
          } else if IsCtl(input) {
            verdict := False;
          } else {
            req.uri := req.uri + [input];
          }
        case VersionH =>
          if input == 72 { state := VersionT1; } else { verdict := False; }
        case VersionT1 =>
          if input == 84 { state := VersionT2; } else { verdict := False; }
        case VersionT2 =>
          if input == 84 { state := VersionP; } else { verdict := False; }
        case VersionP =>
          if input == 80 { state := VersionSlash; } else { verdict := False; }
        case VersionSlash =>
          if input == SLASH {
            req.major := 0;
            req.minor := 0;
            state := MajorStart;
          } else {
            verdict := False;
          }
        case MajorStart =>
          if IsDigit(input) {
            req.major := req.major * 10 + input - ZERO;
            state := InMajor;
          } else {
            verdict := False;
          }
        case InMajor =>
          if input == DOT {
            state := MinorStart;
          } else if IsDigit(input) {
            req.major := req.major * 10 + input - ZERO;
          } else {
            verdict := False;
          }
        case MinorStart =>
          if IsDigit(input) {
            req.minor := req.minor * 10 + input - ZERO;
            state := InMinor;
          } else {
            verdict := False;
          }
        case InMinor =>
          if input == CR {
            state := Newline1;
          } else if IsDigit(input) {
            req.minor := req.minor * 10 + input - ZERO;
          } else {
            verdict := False;
          }
        case Newline1 =>
          if input == LF { state := LineStart; } else { verdict := False; }
        case LineStart =>
          if input == CR {
            state := Newline3;
          } else if req.headers != [] && (input == SP || input == HT) {
            state := HeaderLws;
          } else if !IsChar(input) || IsCtl(input) || IsTspecial(input) {
            verdict := False;
          } else {
            req.headers := req.headers + [Header([input], [])];
            state := HeaderName;
          }
        case HeaderLws =>
          if input == CR {
            state := Newline2;
          } else if input == SP || input == HT {
          } else if IsCtl(input) {
            verdict := False;
          } else {
            state := HeaderValue;
            req.headers := AppendValue(req.headers, [input]);
          }
        case HeaderName =>
          if input == COLON {
            state := SpaceBeforeValue;
          } else if !IsChar(input) || IsCtl(input) || IsTspecial(input) {
            verdict := False;
          } else {
            req.headers := AppendName(req.headers, input);
          }
        case SpaceBeforeValue =>
          if input == SP { state := HeaderValue; } else { verdict := False; }
        case HeaderValue =>
          if input == CR {
            state := Newline2;
          } else if IsCtl(input) {
            verdict := False;
          } else {
            req.headers := AppendValue(req.headers, [input]);
          }
        case Newline2 =>
          if input == LF { state := LineStart; } else { verdict := False; }
        case Newline3 =>
          verdict := if input == LF then True else False;
      }
    }

    /** Parse the bytes of `buffer` from `begin` up to `end`; `next` is the position after the last byte used. */
    method Parse(req: RequestRecord, buffer: array<Byte>, begin: nat, end: nat) returns (verdict: Tribool, next: nat)
      requires begin <= end <= buffer.Length
      requires Usable(state, req.Contents())
      modifies this, req
      ensures begin <= next <= end
      ensures Outcome(verdict, next - begin, state, req.Contents()) == old(Run(state, req.Contents(), buffer[begin..end]))
    {
      next := begin;
      ghost var input := buffer[begin..end];
      ghost var whole := Run(state, req.Contents(), input);
      assert input[0..] == input;
      while next != end
        invariant begin <= next <= end
        invariant buffer[begin..end] == input
        invariant HasRead(whole, state, req.Contents(), input, next - begin)
        decreases end - next
      {
        var c := buffer[next];
        assert c == buffer[begin..end][next - begin];
        ReadOneMore(whole, state, req.Contents(), input, next - begin);
        verdict := Consume(req, c);
        next := next + 1;
        if verdict != Indeterminate {
          return;
        }
      }
      ReadAll(whole, state, req.Contents(), input);
      verdict := Indeterminate;
    }
  }
}
