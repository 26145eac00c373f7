/** `request_handler::url_decode` (full_server/request_handler.cpp) and percent-encoding (section 2.1 of RFC 3986). */
module UrlDecoding {
  import opened Wrappers
  import opened Bytes

  /** What `istringstream >> std::hex` makes of two characters: library behaviour, so a parameter. */
  type HexReader = (Byte, Byte) -> Option<int>

  /** The reader knows pairs of hexadecimal digits; on anything else it may fail or be lenient. */
  ghost predicate ReadsHexPairs(hex: HexReader) {
    forall a: Byte, b: Byte | IsHexDigit(a) && IsHexDigit(b) :: hex(a, b) == Some(16 * DigitValue(a) + DigitValue(b))
  }

  /** `static_cast<char>` */
  function LowByte(v: int): (c: Byte)
    ensures (v - c) % 256 == 0
  {
    v % 256
  }

  /** `a` before a result, if there is one. */
  function Before(a: Bytes, rest: Option<Bytes>): Option<Bytes> {
    if rest.Some? then Some(a + rest.value) else None
  }

  lemma BeforeTwice(a: Bytes, b: Bytes, rest: Option<Bytes>)
    ensures Before(a, Before(b, rest)) == Before(a + b, rest)
    ensures Before([], rest) == rest
  {
    if rest.Some? {
      assert a + (b + rest.value) == a + b + rest.value;
      assert [] + rest.value == rest.value;
    }
  }

  function Decode(hex: HexReader, s: Bytes): Option<Bytes>
    decreases |s|
  {
    if s == [] then Some([])
    else if s[0] == PERCENT then
      if |s| < 3 || hex(s[1], s[2]).None? then None
      else Before([LowByte(hex(s[1], s[2]).value)], Decode(hex, s[3..]))
    else if s[0] == PLUS then Before([SP], Decode(hex, s[1..]))
    else Before([s[0]], Decode(hex, s[1..]))
  }

  /** The loop of the source: false means that decoding failed and `out` is not to be used. */
  method UrlDecode(hex: HexReader, s: Bytes) returns (ok: bool, out: Bytes)
    ensures ok <==> Decode(hex, s).Some?
    ensures ok ==> out == Decode(hex, s).value
  {
    out := [];
    var i := 0;
    assert s[0..] == s;
    BeforeTwice([], [], Decode(hex, s));
    while i < |s|
      invariant 0 <= i <= |s|
      invariant Decode(hex, s) == Before(out, Decode(hex, s[i..]))
    {
      var rest := s[i..];
      assert rest[1..] == s[i + 1..];
      if s[i] == PERCENT {
        if i + 3 <= |s| {
          assert rest[1] == s[i + 1] && rest[2] == s[i + 2] && rest[3..] == s[i + 3..];
          var value := hex(s[i + 1], s[i + 2]);
          if value.Some? {
            BeforeTwice(out, [LowByte(value.value)], Decode(hex, s[i + 3..]));
            out := out + [LowByte(value.value)];
            i := i + 2;
          } else {
            return false, out;
          }
        } else {
          return false, out;
        }
      } else if s[i] == PLUS {
        BeforeTwice(out, [SP], Decode(hex, s[i + 1..]));
        out := out + [SP];
      } else {
        BeforeTwice(out, [s[i]], Decode(hex, s[i + 1..]));
        out := out + [s[i]];
      }
      i := i + 1;
    }
    assert out + [] == out;
    ok := true;
  }

  /** The units an encoded string is made of. */
  datatype Unit = Literal(c: Byte) | Escape(a: Byte, b: Byte) | Plus

  predicate ValidUnit(hex: HexReader, u: Unit) {
    match u
    case Literal(c) => c != PERCENT && c != PLUS
    case Escape(a, b) => hex(a, b).Some?
    case Plus => true
  }

  function PrintUnit(u: Unit): Bytes {
    match u
    case Literal(c) => [c]
    case Escape(a, b) => [PERCENT, a, b]
    case Plus => [PLUS]
  }

  function MeaningOf(hex: HexReader, u: Unit): Byte
    requires ValidUnit(hex, u)
  {
    match u
    case Literal(c) => c
    case Escape(a, b) => LowByte(hex(a, b).value)
    case Plus => SP
  }

  ghost predicate ValidUnits(hex: HexReader, us: seq<Unit>) {
    forall i | 0 <= i < |us| :: ValidUnit(hex, us[i])
  }

  function PrintUnits(us: seq<Unit>): Bytes {
    if us == [] then [] else PrintUnit(us[0]) + PrintUnits(us[1..])
  }

  ghost function Meaning(hex: HexReader, us: seq<Unit>): (r: Bytes)
    requires ValidUnits(hex, us)
    ensures |r| == |us|
  {
    seq(|us|, i requires 0 <= i < |us| && ValidUnits(hex, us) => MeaningOf(hex, us[i]))
  }

  function Escapes(us: seq<Unit>): nat {
    if us == [] then 0 else (if us[0].Escape? then 1 else 0) + Escapes(us[1..])
  }

  lemma DecodeUnit(hex: HexReader, u: Unit, t: Bytes)
    requires ValidUnit(hex, u)
    ensures Decode(hex, PrintUnit(u) + t) == Before([MeaningOf(hex, u)], Decode(hex, t))
  {
    var s := PrintUnit(u) + t;
    assert s[|PrintUnit(u)|..] == t;
    if u.Escape? {
      assert s[0] == PERCENT && s[1] == u.a && s[2] == u.b;
    }
  }

  lemma MeaningFirst(hex: HexReader, us: seq<Unit>)
    requires ValidUnits(hex, us) && us != []
    ensures Meaning(hex, us) == [MeaningOf(hex, us[0])] + Meaning(hex, us[1..])
  {
  }

  /** Decoding goes unit by unit, so it is compositional. */
  lemma {:induction false} DecodeUnits(hex: HexReader, us: seq<Unit>, t: Bytes)
    requires ValidUnits(hex, us)
    ensures Decode(hex, PrintUnits(us) + t) == Before(Meaning(hex, us), Decode(hex, t))
    decreases |us|
  {
    if us == [] {
      assert PrintUnits(us) + t == t;
      BeforeTwice([], [], Decode(hex, t));
    } else {
      var u, rest := us[0], us[1..];
      DecodeUnits(hex, rest, t);
      DecodeUnit(hex, u, PrintUnits(rest) + t);
      assert PrintUnits(us) + t == PrintUnit(u) + (PrintUnits(rest) + t);
      BeforeTwice([MeaningOf(hex, u)], Meaning(hex, rest), Decode(hex, t));
      MeaningFirst(hex, us);
    }
  }

  lemma FirstUnit(s: Bytes) returns (u: Unit)
    requires s != []
    requires s[0] == PERCENT ==> |s| >= 3
    ensures PrintUnit(u) <= s
    ensures u == if s[0] == PERCENT then Escape(s[1], s[2]) else if s[0] == PLUS then Plus else Literal(s[0])
  {
    u := if s[0] == PERCENT then Escape(s[1], s[2]) else if s[0] == PLUS then Plus else Literal(s[0]);
  }

  /** A string decodes only if it is made of units; the result has one byte per unit. */
  lemma {:induction false} DecodedIsUnits(hex: HexReader, s: Bytes) returns (us: seq<Unit>)
    requires Decode(hex, s).Some?
    ensures ValidUnits(hex, us) && PrintUnits(us) == s && Decode(hex, s) == Some(Meaning(hex, us))
    decreases |s|
  {
    if s == [] {
      us := [];
    } else {
      var u := FirstUnit(s);
      var t := s[|PrintUnit(u)|..];
      assert s == PrintUnit(u) + t;
      DecodeUnit(hex, u, t);
      var rest := DecodedIsUnits(hex, t);
      us := [u] + rest;
      assert us[1..] == rest;
      MeaningFirst(hex, us);
    }
  }

  /** `url_decode` succeeds with `out` iff the input is a string of units that mean `out`. */
  lemma DecodesExactlyUnits(hex: HexReader, s: Bytes, out: Bytes)
    ensures Decode(hex, s) == Some(out)
      <==> exists us :: ValidUnits(hex, us) && PrintUnits(us) == s && Meaning(hex, us) == out
  {
    if Decode(hex, s) == Some(out) {
      var us := DecodedIsUnits(hex, s);
    }
    if exists us :: ValidUnits(hex, us) && PrintUnits(us) == s && Meaning(hex, us) == out {
      var us :| ValidUnits(hex, us) && PrintUnits(us) == s && Meaning(hex, us) == out;
      DecodeUnits(hex, us, []);
      assert s + [] == s && out + [] == out;
    }
  }

  lemma {:induction false} UnitsLength(us: seq<Unit>)
    ensures |PrintUnits(us)| == |us| + 2 * Escapes(us)
  {
    if us != [] {
      UnitsLength(us[1..]);
    }
  }

  /** Every escape shortens the result by two bytes, and nothing else changes its length. */
  lemma {:induction false} DecodedLength(hex: HexReader, us: seq<Unit>)
    requires ValidUnits(hex, us)
    ensures Decode(hex, PrintUnits(us)).Some?
    ensures |Decode(hex, PrintUnits(us)).value| + 2 * Escapes(us) == |PrintUnits(us)|
  {
    UnitsLength(us);
    DecodeUnits(hex, us, []);
    assert PrintUnits(us) + [] == PrintUnits(us);
  }

  /** If the first part decodes, the whole decodes iff the second part does, to the two results in order. */
  lemma DecodeConcatenation(hex: HexReader, a: Bytes, b: Bytes)
    requires Decode(hex, a).Some?
    ensures Decode(hex, a + b).Some? <==> Decode(hex, b).Some?
    ensures Decode(hex, b).Some? ==> Decode(hex, a + b).value == Decode(hex, a).value + Decode(hex, b).value
  {
    var us := DecodedIsUnits(hex, a);
    DecodeUnits(hex, us, b);
  }

  /** A legal way to encode one byte: itself, unless it is '%' or '+'; its two hexadecimal digits; '+' for a space. */
  predicate Encodes(u: Unit, c: Byte) {
    match u
    case Literal(d) => d == c && c != PERCENT && c != PLUS
    case Escape(a, b) => IsHexDigit(a) && IsHexDigit(b) && 16 * DigitValue(a) + DigitValue(b) == c
    case Plus => c == SP
  }

  lemma EncodedUnit(hex: HexReader, u: Unit, c: Byte)
    requires ReadsHexPairs(hex) && Encodes(u, c)
    ensures ValidUnit(hex, u) && MeaningOf(hex, u) == c
  {
  }

  ghost predicate LegalEncoding(us: seq<Unit>, original: Bytes) {
    |us| == |original| && forall i | 0 <= i < |us| :: Encodes(us[i], original[i])
  }

  /** Decoding undoes every legal encoding of every byte string. */
  lemma DecodeInvertsEncoding(hex: HexReader, us: seq<Unit>, original: Bytes)
    requires ReadsHexPairs(hex) && LegalEncoding(us, original)
    ensures Decode(hex, PrintUnits(us)) == Some(original)
  {
    forall i | 0 <= i < |us| ensures ValidUnit(hex, us[i]) && MeaningOf(hex, us[i]) == original[i] {
      EncodedUnit(hex, us[i], original[i]);
    }
    DecodeUnits(hex, us, []);
    assert PrintUnits(us) + [] == PrintUnits(us);
    assert Meaning(hex, us) == original;
    assert original + [] == original;
  }

  /** "%41+a" is "A a". */
  lemma EscapedLetter(hex: HexReader)
    requires ReadsHexPairs(hex)
    ensures Decode(hex, [37, 52, 49, 43, 97]) == Some([65, 32, 97])
  {
    var us := [Escape(52, 49), Plus, Literal(97)];
    assert PrintUnits(us[1..][1..]) == [97] + [];
    assert PrintUnits(us[1..]) == [43] + [97];
    assert PrintUnits(us) == [37, 52, 49] + [43, 97];
    DecodeInvertsEncoding(hex, us, [65, 32, 97]);
  }
}
