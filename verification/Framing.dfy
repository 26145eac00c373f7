/** ex_serialization/connection.hpp: messages framed by an eight-character hexadecimal length. */
module Framing {
  import opened Wrappers
  import opened Bytes

  const HEADER_LENGTH: nat := 8
  const LIMIT: nat := 0x1_0000_0000 // 16^8

  /** What `istringstream >> std::hex` makes of a header: library behaviour, so a parameter. */
  type SizeReader = Bytes -> Option<nat>

  predicate Spaces(s: Bytes) {
    forall i | 0 <= i < |s| :: s[i] == SP
  }

  /** A header made of blanks and then digits. */
  ghost predicate Padded(blanks: Bytes, ds: Bytes) {
    Spaces(blanks) && DigitsOf(16, ds) && ds != [] && |blanks| + |ds| == HEADER_LENGTH
  }

  /**
   * The reader skips the leading blanks of a header and reads the digits after them; any other header, and anything
   * that is not eight bytes long, it may read as it likes or refuse.
   */
  ghost predicate ReadsPaddedHex(read: SizeReader) {
    forall blanks: Bytes, ds: Bytes | Padded(blanks, ds) :: Reads(read, blanks, ds)
  }

  ghost predicate Reads(read: SizeReader, blanks: Bytes, ds: Bytes) {
    Value(16, ds) >= 0 && read(blanks + ds) == Some(Value(16, ds))
  }

  function Blanks(n: nat): (s: Bytes)
    ensures |s| == n && Spaces(s)
  {
    seq(n, _ => SP)
  }

  /** `setw(8) << hex << n` */
  function FormatSize(n: nat): Bytes {
    var ds := Numeral(16, n);
    if |ds| < HEADER_LENGTH then Blanks(HEADER_LENGTH - |ds|) + ds else ds
  }

  function Frame(payload: Bytes): Bytes {
    FormatSize(|payload|) + payload
  }

  /** A payload of 26 bytes goes out after six blanks and "1a". */
  lemma FrameOfTwentySix(payload: Bytes)
    requires |payload| == 26
    ensures Frame(payload) == [32, 32, 32, 32, 32, 32, 49, 97] + payload
  {
    assert Numeral(16, 1) == [49];
    assert Numeral(16, 26) == [49] + [97];
    assert Blanks(6) == [32, 32, 32, 32, 32, 32];
  }

  function Frames(payloads: seq<Bytes>): Bytes {
    if payloads == [] then [] else Frame(payloads[0]) + Frames(payloads[1..])
  }

  /** Why reading stopped: out of bytes before a header or before the data is complete, or a header that is no number. */
  datatype End = NeedHeader(rest: Bytes) | NeedData(size: nat, rest: Bytes) | BadHeader(header: Bytes)

  datatype Reception = Reception(messages: seq<Bytes>, end: End)

  /** Reading header, data, header, data, ... from a stream. */
  function Receive(read: SizeReader, s: Bytes): Reception
    decreases |s|
  {
    if |s| < HEADER_LENGTH then Reception([], NeedHeader(s))
    else
      var size := read(s[..HEADER_LENGTH]);
      var rest := s[HEADER_LENGTH..];
      if size.None? then Reception([], BadHeader(s[..HEADER_LENGTH]))
      else if |rest| < size.value then Reception([], NeedData(size.value, rest))
      else
        Ahead([rest[..size.value]], Receive(read, rest[size.value..]))
  }

  /** Some messages before those of a reception. */
  function Ahead(messages: seq<Bytes>, r: Reception): Reception {
    r.(messages := messages + r.messages)
  }

  lemma AheadTwice(a: seq<Bytes>, b: seq<Bytes>, r: Reception)
    ensures Ahead(a, Ahead(b, r)) == Ahead(a + b, r)
    ensures Ahead([], r) == r
  {
    assert a + (b + r.messages) == a + b + r.messages;
    assert [] + r.messages == r.messages;
  }

  lemma {:induction false} NumeralLength(n: nat, k: nat)
    requires k > 0
    ensures |Numeral(16, n)| <= k <==> n < Power(16, k)
    decreases k
  {
    if n >= 16 {
      QuotientIsSmaller(16, n);
      if k == 1 {
        assert Power(16, 1) == 16;
      } else {
        NumeralLength(n / 16, k - 1);
      }
    } else {
      PowerGrows(k);
    }
  }

  lemma {:induction false} PowerGrows(k: nat)
    requires k > 0
    ensures Power(16, k) >= 16
  {
    if k > 1 {
      PowerGrows(k - 1);
    }
  }

  lemma PowersOfSixteen(k: nat)
    requires k <= HEADER_LENGTH
    ensures Power(16, k) <= LIMIT
    ensures k == HEADER_LENGTH ==> Power(16, k) == LIMIT
  {
    assert Power(16, 4) == 0x1_0000;
    assert Power(16, 8) == 0x1_0000_0000;
  }

  /** A header has eight characters exactly for lengths below 16^8. */
  lemma HeaderFits(n: nat)
    ensures |FormatSize(n)| == HEADER_LENGTH <==> n < LIMIT
  {
    NumeralLength(n, HEADER_LENGTH);
    PowersOfSixteen(HEADER_LENGTH);
  }

  lemma FormatShape(n: nat) returns (blanks: Bytes)
    ensures FormatSize(n) == blanks + Numeral(16, n) && Spaces(blanks)
  {
    var ds := Numeral(16, n);
    blanks := if |ds| < HEADER_LENGTH then Blanks(HEADER_LENGTH - |ds|) else [];
    assert [] + ds == ds;
  }

  /** Formatting and reading a length that fits the header are inverse. */
  lemma ReadFormatted(read: SizeReader, n: nat)
    requires ReadsPaddedHex(read) && n < LIMIT
    ensures read(FormatSize(n)) == Some(n)
  {
    HeaderFits(n);
    var blanks := FormatShape(n);
    ValueOfNumeral(16, n);
    assert Padded(blanks, Numeral(16, n));
    assert Reads(read, blanks, Numeral(16, n));
  }

  lemma ReceiveFrame(read: SizeReader, payload: Bytes, t: Bytes)
    requires ReadsPaddedHex(read) && |payload| < LIMIT
    ensures Receive(read, Frame(payload) + t) == Ahead([payload], Receive(read, t))
  {
    var s, header := Frame(payload) + t, FormatSize(|payload|);
    HeaderFits(|payload|);
    ReadFormatted(read, |payload|);
    assert s[..HEADER_LENGTH] == header;
    assert s[HEADER_LENGTH..] == payload + t;
    assert (payload + t)[..|payload|] == payload && (payload + t)[|payload|..] == t;
  }

  ghost predicate Sendable(payloads: seq<Bytes>) {
    forall i | 0 <= i < |payloads| :: |payloads[i]| < LIMIT
  }

  /** Reading undoes writing for any list of messages, and leaves what follows them to be read next. */
  lemma {:induction false} ReceiveFrames(read: SizeReader, payloads: seq<Bytes>, t: Bytes)
    requires ReadsPaddedHex(read) && Sendable(payloads)
    ensures Receive(read, Frames(payloads) + t) == Ahead(payloads, Receive(read, t))
    decreases |payloads|
  {
    if payloads == [] {
      assert Frames(payloads) + t == t;
      AheadTwice([], [], Receive(read, t));
    } else {
      var p, rest := payloads[0], payloads[1..];
      ReceiveFrames(read, rest, t);
      ReceiveFrame(read, p, Frames(rest) + t);
      assert Frames(payloads) + t == Frame(p) + (Frames(rest) + t);
      AheadTwice([p], rest, Receive(read, t));
      assert [p] + rest == payloads;
    }
  }

  /** The whole stream gives back the whole list, with nothing left over. */
  lemma StreamRoundTrip(read: SizeReader, payloads: seq<Bytes>)
    requires ReadsPaddedHex(read) && Sendable(payloads)
    ensures Receive(read, Frames(payloads)) == Reception(payloads, NeedHeader([]))
  {
    ReceiveFrames(read, payloads, []);
    assert Frames(payloads) + [] == Frames(payloads);
    assert payloads + [] == payloads;
  }

  lemma ReceivePartOfFrame(read: SizeReader, payload: Bytes, u: Bytes)
    requires ReadsPaddedHex(read) && |payload| < LIMIT && u < Frame(payload)
    ensures var r := Receive(read, u); r.messages == [] && !r.end.BadHeader?
  {
    HeaderFits(|payload|);
    ReadFormatted(read, |payload|);
    if |u| >= HEADER_LENGTH {
      assert u[..HEADER_LENGTH] == Frame(payload)[..HEADER_LENGTH] == FormatSize(|payload|);
    }
  }

  /** Any part of the stream gives exactly the messages that are complete in it, and never an error. */
  lemma {:induction false} StreamPrefix(read: SizeReader, payloads: seq<Bytes>, u: Bytes) returns (k: nat)
    requires ReadsPaddedHex(read) && Sendable(payloads) && u <= Frames(payloads)
    ensures k <= |payloads|
    ensures Receive(read, u).messages == payloads[..k] && !Receive(read, u).end.BadHeader?
    ensures |Frames(payloads[..k])| <= |u|
    ensures k < |payloads| ==> |u| < |Frames(payloads[..k + 1])|
    decreases |payloads|
  {
    if payloads == [] {
      k := 0;
    } else {
      var p, rest := payloads[0], payloads[1..];
      var f := Frame(p);
      if |u| < |f| {
        k := 0;
        assert u == Frames(payloads)[..|u|] == f[..|u|];
        ReceivePartOfFrame(read, p, u);
        FramesOne(payloads);
      } else {
        var v := u[|f|..];
        DropFrame(f, Frames(rest), u);
        var j := StreamPrefix(read, rest, v);
        k := j + 1;
        ReceiveFrame(read, p, v);
        FramesLonger(payloads, j);
        if j < |rest| {
          FramesLonger(payloads, j + 1);
        }
      }
    }
  }

  lemma DropFrame(f: Bytes, g: Bytes, u: Bytes)
    requires u <= f + g && |f| <= |u|
    ensures u == f + u[|f|..] && u[|f|..] <= g
  {
  }

  lemma FramesOne(payloads: seq<Bytes>)
    requires payloads != []
    ensures Frames(payloads[..0]) == [] && Frames(payloads[..1]) == Frame(payloads[0])
  {
    assert payloads[..1][1..] == [];
    assert Frame(payloads[0]) + [] == Frame(payloads[0]);
  }

  lemma FramesLonger(payloads: seq<Bytes>, j: nat)
    requires payloads != [] && j <= |payloads[1..]|
    ensures Frames(payloads[..j + 1]) == Frame(payloads[0]) + Frames(payloads[1..][..j])
    ensures payloads[..j + 1] == [payloads[0]] + payloads[1..][..j]
  {
    assert payloads[..j + 1][1..] == payloads[1..][..j];
  }

  const SIZE_MAX := 0xffff_ffff_ffff_ffff

  /** A reader into a 64-bit size that accepts exactly padded digits, and fails on more digits than the size holds. */
  function StrictRead(s: Bytes): Option<nat>
    decreases |s|
  {
    if s != [] && s[0] == SP then StrictRead(s[1..])
    else if s != [] && DigitsOf(16, s) && 0 <= Value(16, s) <= SIZE_MAX then Some(Value(16, s))
    else None
  }

  lemma {:induction false} StrictReadPadded(blanks: Bytes, ds: Bytes)
    requires Spaces(blanks) && DigitsOf(16, ds) && 0 < |ds| <= HEADER_LENGTH
    ensures Reads(s => StrictRead(s), blanks, ds)
    decreases |blanks|
  {
    if blanks == [] {
      ValueBelowPower(16, ds);
      PowersOfSixteen(|ds|);
      assert blanks + ds == ds;
      assert IsHexDigit(ds[0]);
    } else {
      assert (blanks + ds)[1..] == blanks[1..] + ds;
      StrictReadPadded(blanks[1..], ds);
    }
  }

  /** There are readers as assumed, also among those that hold no more than 64 bits. */
  lemma StrictReadQualifies()
    ensures ReadsPaddedHex(s => StrictRead(s))
  {
    forall blanks: Bytes, ds: Bytes | Padded(blanks, ds) ensures Reads(s => StrictRead(s), blanks, ds) {
      StrictReadPadded(blanks, ds);
    }
  }

  /** What the handler of a read is told, or the read that is started next. */
  datatype Next = Failed | ReadData(size: nat) | Delivered(message: Bytes)

  class Connection {
    const read: SizeReader
    const inboundHeader: array<Byte>
    var outboundHeader: Bytes
    var outboundData: Bytes
    var inboundData: Bytes
    var sent: Bytes // what has been handed to the socket

    constructor (read: SizeReader)
      ensures this.read == read && inboundHeader.Length == HEADER_LENGTH && fresh(inboundHeader)
      ensures sent == [] && outboundHeader == [] && outboundData == [] && inboundData == []
    {
      this.read := read;
      inboundHeader := new Byte[HEADER_LENGTH](_ => 0);
      outboundHeader, outboundData, inboundData, sent := [], [], [], [];
    }

    /** Writes a frame, or refuses and writes nothing. */
    method AsyncWrite(payload: Bytes) returns (ok: bool)
      modifies this
      ensures ok <==> |payload| < LIMIT
      ensures outboundData == payload && inboundData == old(inboundData)
      ensures ok ==> sent == old(sent) + Frame(payload) && outboundHeader == FormatSize(|payload|)
      ensures !ok ==> sent == old(sent) && outboundHeader == old(outboundHeader)
    {
      outboundData := payload;
      var header := FormatSize(|outboundData|);
      HeaderFits(|outboundData|);
      if |header| != HEADER_LENGTH {
        return false;
      }
      outboundHeader := header;
      sent := sent + (outboundHeader + outboundData);
      ok := true;
    }

    method HandleReadHeader(error: bool) returns (next: Next)
      requires inboundHeader.Length == HEADER_LENGTH
      modifies this
      ensures next == if error || read(inboundHeader[..]).None? then Failed else ReadData(read(inboundHeader[..]).value)
      ensures next.ReadData? ==> |inboundData| == next.size
      ensures next.Failed? ==> inboundData == old(inboundData)
      ensures sent == old(sent) && outboundHeader == old(outboundHeader) && outboundData == old(outboundData)
    {
      if error {
        return Failed;
      }
      var size := read(inboundHeader[..]);
      if size.None? {
        return Failed;
      }
      inboundData := seq(size.value, _ => 0);
      next := ReadData(size.value);
    }

    method HandleReadData(error: bool) returns (next: Next)
      ensures next == if error then Failed else Delivered(inboundData)
    {
      next := if error then Failed else Delivered(inboundData);
    }

    /** Keep reading messages from a stream until it ends or a read fails. */
    method ReadStream(stream: Bytes) returns (messages: seq<Bytes>)
      requires inboundHeader.Length == HEADER_LENGTH
      modifies this, inboundHeader
      ensures messages == Receive(read, stream).messages
      ensures sent == old(sent)
    {
      messages := [];
      var position := 0;
      assert stream[0..] == stream;
      AheadTwice([], [], Receive(read, stream));
      while true
        invariant 0 <= position <= |stream|
        invariant Receive(read, stream) == Ahead(messages, Receive(read, stream[position..]))
        invariant sent == old(sent)
        decreases |stream| - position
      {
        var rest := stream[position..];
        if |rest| < HEADER_LENGTH {
          return;
        }
        forall i | 0 <= i < HEADER_LENGTH {
          inboundHeader[i] := stream[position + i];
        }
        assert inboundHeader[..] == rest[..HEADER_LENGTH];
        var next := HandleReadHeader(false);
        if next.Failed? || |rest| - HEADER_LENGTH < next.size {
          return;
        }
        position := position + HEADER_LENGTH;
        assert rest[HEADER_LENGTH..] == stream[position..];
        inboundData := stream[position..position + next.size];
        assert inboundData == rest[HEADER_LENGTH..][..next.size];
        var delivered := HandleReadData(false);
        AheadTwice(messages, [delivered.message], Receive(read, rest[HEADER_LENGTH..][next.size..]));
        messages := messages + [delivered.message];
        assert rest[HEADER_LENGTH..][next.size..] == stream[position + next.size..];
        position := position + next.size;
      }
    }
  }
}
